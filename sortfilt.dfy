/** The alternative-alignment arrays of an alnMatrix (general/sortAndFiltAltAlns.h):
  * scoreAry, startIndexAry and endIndexAry hold one alternative alignment per
  * slot. The shell sorts reorder the three arrays in lockstep and the query
  * filter compacts them, keeping the best of each run of alignments that
  * overlap on the query.
  *
  * Each loop of the C is a method over the arrays, proved equal to a function
  * over the sequence of slots (Sink, Pass, Chains, Rounds, FiltFrom, Blank);
  * the lemmas state what those functions promise. */
module SortAndFilt {
  import opened AlnMatrixStruct

  // ---------------------------------------------------------------------------
  // Slots
  // ---------------------------------------------------------------------------

  /** One slot of the three parallel arrays: an alternative alignment's score
    * and the matrix indexes of its first and last cells. */
  datatype Alt = Alt(score: int, start: nat, end: nat)

  /** The slots the three arrays hold together. */
  function Zip(score: seq<int>, start: seq<nat>, end: seq<nat>): (z: seq<Alt>)
    requires |start| == |score| && |end| == |score|
    ensures |z| == |score|
  {
    seq(|score|, k requires 0 <= k < |score| => Alt(score[k], start[k], end[k]))
  }

  /** Three arrays of one length, the two index arrays distinct. */
  predicate Parallel(score: array<int>, start: array<nat>, end: array<nat>)
  {
    start.Length == score.Length && end.Length == score.Length && start != end
  }

  ghost function Alts(score: array<int>, start: array<nat>, end: array<nat>): seq<Alt>
    reads score, start, end
    requires Parallel(score, start, end)
  {
    Zip(score[..], start[..], end[..])
  }

  /** The slot at index i. */
  function AltAt(score: array<int>, start: array<nat>, end: array<nat>, i: nat): (a: Alt)
    reads score, start, end
    requires Parallel(score, start, end) && i < score.Length
    ensures a == Alts(score, start, end)[i]
  {
    Alt(score[i], start[i], end[i])
  }

  /** The query coordinate of a matrix index (indexToQry). */
  function Qry(refLen: nat, index: nat): int
  {
    IndexToQry(refLen, index)
  }

  // ---------------------------------------------------------------------------
  // Orders and the comparisons of the sorts
  // ---------------------------------------------------------------------------

  /** The orders a sort can leave the slots in. */
  datatype Order = Ascending | Descending | QryThenScore(refLen: nat)

  /** `a` belongs strictly before `b`: by score, or by query start first
    * (lowest first) and then by score (highest first). */
  predicate Before(o: Order, a: Alt, b: Alt)
  {
    match o
    case Ascending => a.score < b.score
    case Descending => a.score > b.score
    case QryThenScore(refLen) =>
      Qry(refLen, a.start) < Qry(refLen, b.start)
      || (Qry(refLen, a.start) == Qry(refLen, b.start) && a.score > b.score)
  }

  /** The comparisons of a shell sort: the score sort and the query sort as
    * written, and the two as documented (greatest score first; query start
    * lowest first, then score greatest first). */
  datatype Tests = ScoreAsWritten | ScoreGreatestFirst | QryAsWritten(refLen: nat) | QryLowestFirst(refLen: nat)

  /** The test that swaps slot ulElm, holding a, with slot ulElm + subUL,
    * holding b. */
  predicate Swaps(t: Tests, a: Alt, b: Alt)
  {
    match t
    case ScoreAsWritten => a.score > b.score
    case ScoreGreatestFirst => Before(Descending, b, a)
    case QryAsWritten(refLen) => Before(QryThenScore(refLen), a, b)
    case QryLowestFirst(refLen) => Before(QryThenScore(refLen), b, a)
  }

  /** The test under which the swapped element x keeps moving back past y,
    * the element subUL slots before it (the negation of the `break` test). */
  predicate Sinks(t: Tests, x: Alt, y: Alt)
  {
    match t
    case ScoreAsWritten => !(x.score > y.score)
    case ScoreGreatestFirst => Before(Descending, x, y)
    case QryAsWritten(refLen) => Before(QryThenScore(refLen), x, y)
    case QryLowestFirst(refLen) => Before(QryThenScore(refLen), x, y)
  }

  // ---------------------------------------------------------------------------
  // The shell sort as functions of the slots
  // ---------------------------------------------------------------------------

  function Swap(s: seq<Alt>, i: nat, j: nat): (r: seq<Alt>)
    requires i < |s| && j < |s|
    ensures |r| == |s|
  {
    s[i := s[j]][j := s[i]]
  }

  /** The inner `while(lastElm >= subUL)` loop: the element at `on` moves back
    * sub slots at a time while Sinks holds, never below lo. */
  function Sink(t: Tests, s: seq<Alt>, on: nat, sub: nat, lo: nat): (r: seq<Alt>)
    requires on < |s| && sub >= 1
    ensures |r| == |s|
    decreases on
  {
    if on < lo + sub || !Sinks(t, s[on], s[on - sub]) then s
    else Sink(t, Swap(s, on, on - sub), on - sub, sub, lo)
  }

  /** The `for(ulElm ...)` loop over one chain: each pair e, e + sub up to
    * `last` is swapped when Swaps holds, and the swapped element sinks. */
  function Pass(t: Tests, s: seq<Alt>, e: nat, sub: nat, lo: nat, last: nat): (r: seq<Alt>)
    requires last < |s| && sub >= 1
    ensures |r| == |s|
    decreases last - e
  {
    if e + sub > last then s else Pass(t, PairStep(t, s, e, sub, lo), e + sub, sub, lo, last)
  }

  /** One pair of a chain: slot e and slot e + sub are swapped when Swaps
    * holds, and the element moved to e sinks. */
  function PairStep(t: Tests, s: seq<Alt>, e: nat, sub: nat, lo: nat): (r: seq<Alt>)
    requires e + sub < |s| && sub >= 1
    ensures |r| == |s|
  {
    if Swaps(t, s[e], s[e + sub]) then Sink(t, Swap(s, e, e + sub), e, sub, lo) else s
  }

  /** The `for(ulIndex ...)` loop: the chains starting at k .. lo + sub. */
  function Chains(t: Tests, s: seq<Alt>, k: nat, sub: nat, lo: nat, last: nat): (r: seq<Alt>)
    requires last < |s| && sub >= 1
    ensures |r| == |s|
    decreases lo + sub + 1 - k
  {
    if k > lo + sub then s else Chains(t, Pass(t, s, k, sub, lo, last), k + 1, sub, lo, last)
  }

  /** The `while(subUL > 0)` loop: one round per gap, each gap (gap - 1) / 3
    * of the one before. */
  function Rounds(t: Tests, s: seq<Alt>, sub: nat, lo: nat, last: nat): (r: seq<Alt>)
    requires last < |s|
    ensures |r| == |s|
    decreases sub
  {
    if sub == 0 then s else Rounds(t, Chains(t, s, lo, sub, lo, last), (sub - 1) / 3, lo, last)
  }

  /** The first gap: h grows as 3h + 1 from 1 until it reaches numElm, then
    * steps back once. */
  function Grow(h: nat, numElm: nat): (g: nat)
    requires h >= 1
    ensures g >= h && g >= numElm
    decreases numElm - h
  {
    if h >= numElm then h else Grow(3 * h + 1, numElm)
  }

  function StartGap(numElm: nat): nat
  {
    (Grow(1, numElm) - 1) / 3
  }

  /** The whole shell sort of slots lo .. last, the gaps counted from numElm. */
  function ShellSort(t: Tests, s: seq<Alt>, numElm: nat, lo: nat, last: nat): (r: seq<Alt>)
    requires last < |s|
    ensures |r| == |s|
  {
    Rounds(t, s, StartGap(numElm), lo, last)
  }

  // ---------------------------------------------------------------------------
  // The shell sort over the three arrays
  // ---------------------------------------------------------------------------

  /** The `swap` macro applied to one index pair of all three arrays. */
  method SwapSlots(score: array<int>, start: array<nat>, end: array<nat>, i: nat, j: nat)
    requires Parallel(score, start, end) && i < score.Length && j < score.Length
    modifies score, start, end
    ensures Alts(score, start, end) == Swap(old(Alts(score, start, end)), i, j)
  {
    score[i], score[j] := score[j], score[i];
    start[i], start[j] := start[j], start[i];
    end[i], end[j] := end[j], end[i];
  }

  /** The element swapped into slot e moves back while it Sinks. */
  method SinkBack(score: array<int>, start: array<nat>, end: array<nat>, t: Tests, e: nat, sub: nat, lo: nat)
    requires Parallel(score, start, end) && e < score.Length && sub >= 1
    modifies score, start, end
    ensures Alts(score, start, end) == Sink(t, old(Alts(score, start, end)), e, sub, lo)
  {
    var on: nat := e;
    while on >= lo + sub
      invariant on <= e
      invariant Sink(t, Alts(score, start, end), on, sub, lo) == Sink(t, old(Alts(score, start, end)), e, sub, lo)
      decreases on
    {
      var last := on - sub;
      if !Sinks(t, AltAt(score, start, end, on), AltAt(score, start, end, last)) {
        break;
      }
      SwapSlots(score, start, end, on, last);
      on := last;
    }
  }

  /** One chain of a round: the pairs k, k + sub, k + 2 sub, ... up to last. */
  method PassChain(score: array<int>, start: array<nat>, end: array<nat>, t: Tests,
                   k: nat, sub: nat, lo: nat, last: nat)
    requires Parallel(score, start, end) && last < score.Length && sub >= 1
    modifies score, start, end
    ensures Alts(score, start, end) == Pass(t, old(Alts(score, start, end)), k, sub, lo, last)
  {
    var e: nat := k;
    while e + sub <= last
      invariant Pass(t, Alts(score, start, end), e, sub, lo, last) == Pass(t, old(Alts(score, start, end)), k, sub, lo, last)
      decreases last - e
    {
      if Swaps(t, AltAt(score, start, end, e), AltAt(score, start, end, e + sub)) {
        SwapSlots(score, start, end, e, e + sub);
        SinkBack(score, start, end, t, e, sub, lo);
      }
      e := e + sub;
    }
  }

  /** One round: every chain lo .. lo + sub. */
  method Round(score: array<int>, start: array<nat>, end: array<nat>, t: Tests, sub: nat, lo: nat, last: nat)
    requires Parallel(score, start, end) && last < score.Length && sub >= 1
    modifies score, start, end
    ensures Alts(score, start, end) == Chains(t, old(Alts(score, start, end)), lo, sub, lo, last)
  {
    var k: nat := lo;
    while k <= lo + sub
      invariant Chains(t, Alts(score, start, end), k, sub, lo, last) == Chains(t, old(Alts(score, start, end)), lo, sub, lo, last)
      decreases lo + sub + 1 - k
    {
      PassChain(score, start, end, t, k, sub, lo, last);
      k := k + 1;
    }
  }

  /** The shell sort of sortAndFiltAltAlns.h over the three arrays: the gap is
    * grown from numElm, then each round runs with the gap (gap - 1) / 3 of
    * the round before. */
  method ShellSortSlots(score: array<int>, start: array<nat>, end: array<nat>, t: Tests,
                        numElm: nat, lo: nat, last: nat)
    requires Parallel(score, start, end) && last < score.Length
    modifies score, start, end
    ensures Alts(score, start, end) == ShellSort(t, old(Alts(score, start, end)), numElm, lo, last)
  {
    var sub: nat := 1;
    while sub < numElm
      invariant sub >= 1 && Grow(sub, numElm) == Grow(1, numElm)
      decreases numElm - sub
    {
      sub := 3 * sub + 1;
    }
    sub := (sub - 1) / 3;
    while sub > 0
      invariant Rounds(t, Alts(score, start, end), sub, lo, last)
                == ShellSort(t, old(Alts(score, start, end)), numElm, lo, last)
      decreases sub
    {
      Round(score, start, end, t, sub, lo, last);
      sub := (sub - 1) / 3;
    }
  }

  // ---------------------------------------------------------------------------
  // What the shell sort promises
  // ---------------------------------------------------------------------------

  /** r holds the slots of s, in lockstep, reordered within lo .. last only. */
  ghost predicate Permutes(s: seq<Alt>, r: seq<Alt>, lo: nat, last: nat)
  {
    && |r| == |s| && multiset(r) == multiset(s)
    && forall k :: 0 <= k < |s| && !(lo <= k <= last) ==> r[k] == s[k]
  }

  lemma PermutesTrans(s: seq<Alt>, r: seq<Alt>, u: seq<Alt>, lo: nat, last: nat)
    requires Permutes(s, r, lo, last) && Permutes(r, u, lo, last)
    ensures Permutes(s, u, lo, last)
  {
  }

  lemma SwapPermutes(s: seq<Alt>, i: nat, j: nat, lo: nat, last: nat)
    requires lo <= i <= last && lo <= j <= last && last < |s|
    ensures Permutes(s, Swap(s, i, j), lo, last)
  {
    if i != j {
      var a := s[i := s[j]];
      assert multiset(a) == multiset(s) - multiset{s[i]} + multiset{s[j]};
      assert multiset(a[j := s[i]]) == multiset(a) - multiset{a[j]} + multiset{s[i]};
    }
  }

  lemma SwapMultiset(s: seq<Alt>, i: nat, j: nat)
    requires i < |s| && j < |s|
    ensures multiset(Swap(s, i, j)) == multiset(s)
  {
    SwapPermutes(s, i, j, 0, |s| - 1);
  }

  lemma SinkPermutes(t: Tests, s: seq<Alt>, on: nat, sub: nat, lo: nat, last: nat)
    requires lo <= on <= last < |s| && sub >= 1
    ensures Permutes(s, Sink(t, s, on, sub, lo), lo, last)
  {
    SinkMultiset(t, s, on, sub, lo);
    SinkFrame(t, s, on, sub, lo);
  }

  lemma {:induction false} SinkMultiset(t: Tests, s: seq<Alt>, on: nat, sub: nat, lo: nat)
    requires on < |s| && sub >= 1
    ensures multiset(Sink(t, s, on, sub, lo)) == multiset(s)
    decreases on
  {
    if on >= lo + sub && Sinks(t, s[on], s[on - sub]) {
      var w := Swap(s, on, on - sub);
      SinkUnfolds(t, s, on, sub, lo);
      SwapMultiset(s, on, on - sub);
      SinkMultiset(t, w, on - sub, sub, lo);
    }
  }

  lemma {:induction false} SinkFrame(t: Tests, s: seq<Alt>, on: nat, sub: nat, lo: nat)
    requires on < |s| && sub >= 1
    ensures forall k :: 0 <= k < |s| && !(lo <= k <= on) ==> Sink(t, s, on, sub, lo)[k] == s[k]
    decreases on
  {
    if on >= lo + sub && Sinks(t, s[on], s[on - sub]) {
      var w := Swap(s, on, on - sub);
      SinkUnfolds(t, s, on, sub, lo);
      SinkFrame(t, w, on - sub, sub, lo);
    }
  }

  lemma SinkUnfolds(t: Tests, s: seq<Alt>, on: nat, sub: nat, lo: nat)
    requires on < |s| && sub >= 1 && lo + sub <= on && Sinks(t, s[on], s[on - sub])
    ensures Sink(t, s, on, sub, lo) == Sink(t, Swap(s, on, on - sub), on - sub, sub, lo)
  {
  }

  lemma {:induction false} PassPermutes(t: Tests, s: seq<Alt>, e: nat, sub: nat, lo: nat, last: nat)
    requires lo <= e && last < |s| && sub >= 1
    ensures Permutes(s, Pass(t, s, e, sub, lo, last), lo, last)
    decreases last - e
  {
    if e + sub > last {
    } else {
      PairStepPermutes(t, s, e, sub, lo, last);
      PassPermutes(t, PairStep(t, s, e, sub, lo), e + sub, sub, lo, last);
      PermutesTrans(s, PairStep(t, s, e, sub, lo), Pass(t, s, e, sub, lo, last), lo, last);
    }
  }

  lemma PairStepPermutes(t: Tests, s: seq<Alt>, e: nat, sub: nat, lo: nat, last: nat)
    requires lo <= e && e + sub <= last < |s| && sub >= 1
    ensures Permutes(s, PairStep(t, s, e, sub, lo), lo, last)
  {
    if Swaps(t, s[e], s[e + sub]) {
      var w := Swap(s, e, e + sub);
      SwapPermutes(s, e, e + sub, lo, last);
      SinkPermutes(t, w, e, sub, lo, last);
      PermutesTrans(s, w, Sink(t, w, e, sub, lo), lo, last);
    }
  }

  lemma {:induction false} ChainsPermutes(t: Tests, s: seq<Alt>, k: nat, sub: nat, lo: nat, last: nat)
    requires lo <= k && last < |s| && sub >= 1
    ensures Permutes(s, Chains(t, s, k, sub, lo, last), lo, last)
    decreases lo + sub + 1 - k
  {
    if k <= lo + sub {
      PassPermutes(t, s, k, sub, lo, last);
      ChainsPermutes(t, Pass(t, s, k, sub, lo, last), k + 1, sub, lo, last);
      PermutesTrans(s, Pass(t, s, k, sub, lo, last), Chains(t, s, k, sub, lo, last), lo, last);
    }
  }

  lemma {:induction false} RoundsPermutes(t: Tests, s: seq<Alt>, sub: nat, lo: nat, last: nat)
    requires last < |s|
    ensures Permutes(s, Rounds(t, s, sub, lo, last), lo, last)
    decreases sub
  {
    if sub > 0 {
      ChainsPermutes(t, s, lo, sub, lo, last);
      RoundsPermutes(t, Chains(t, s, lo, sub, lo, last), (sub - 1) / 3, lo, last);
      PermutesTrans(s, Chains(t, s, lo, sub, lo, last), Rounds(t, s, sub, lo, last), lo, last);
    }
  }

  /** Every sort, as written or as documented, only reorders whole slots: the
    * score, start and end of an alignment stay together. */
  lemma ShellSortPermutes(t: Tests, s: seq<Alt>, numElm: nat, lo: nat, last: nat)
    requires last < |s|
    ensures Permutes(s, ShellSort(t, s, numElm, lo, last), lo, last)
  {
    RoundsPermutes(t, s, StartGap(numElm), lo, last);
  }

  /** Slots lo .. b are in order o: no slot belongs strictly before the one
    * ahead of it. */
  ghost predicate Sorted(o: Order, s: seq<Alt>, a: nat, b: int)
    requires b < |s|
  {
    forall i :: a <= i && i + 1 <= b ==> !Before(o, s[i + 1], s[i])
  }

  /** The comparisons of t agree with order o: Swaps is "b before a", o is
    * asymmetric, and an element sinks past every one it belongs before and
    * past none that belongs before it. */
  ghost predicate Consistent(t: Tests, o: Order)
  {
    forall a: Alt, b: Alt ::
      && (Swaps(t, a, b) <==> Before(o, b, a))
      && (Before(o, a, b) ==> !Before(o, b, a))
      && (Before(o, a, b) ==> Sinks(t, a, b))
      && (Sinks(t, a, b) ==> !Before(o, b, a))
  }

  /** The score sort as written agrees with ascending order, the documented
    * sorts with greatest-first and query-lowest-first order. */
  lemma ConsistentTests(refLen: nat)
    ensures Consistent(ScoreAsWritten, Ascending)
    ensures Consistent(ScoreGreatestFirst, Descending)
    ensures Consistent(QryLowestFirst(refLen), QryThenScore(refLen))
  {
  }

  /** With gap 1, the element at `on` sinks into the sorted run lo .. top:
    * lo .. on - 1 and on .. top are sorted, and the slots either side of
    * `on` are in order with each other. */
  lemma {:induction false} SinkSorts(t: Tests, o: Order, s: seq<Alt>, on: nat, lo: nat, top: nat)
    requires Consistent(t, o) && lo <= on <= top < |s|
    requires Sorted(o, s, lo, on - 1) && Sorted(o, s, on, top)
    requires lo < on < top ==> !Before(o, s[on + 1], s[on - 1])
    ensures Sorted(o, Sink(t, s, on, 1, lo), lo, top)
    decreases on
  {
    if on < lo + 1 || !Sinks(t, s[on], s[on - 1]) {
    } else {
      var s' := Swap(s, on, on - 1);
      SinkStepSorts(t, o, s, on, lo, top);
      SinkSorts(t, o, s', on - 1, lo, top);
    }
  }

  /** One swap of the sink keeps both sorted runs: the run below loses its
    * last slot, and the run above gains the sinking element at its head. */
  lemma SinkStepSorts(t: Tests, o: Order, s: seq<Alt>, on: nat, lo: nat, top: nat)
    requires Consistent(t, o) && lo < on <= top < |s|
    requires Sorted(o, s, lo, on - 1) && Sorted(o, s, on, top)
    requires lo < on < top ==> !Before(o, s[on + 1], s[on - 1])
    requires Sinks(t, s[on], s[on - 1])
    ensures Sorted(o, Swap(s, on, on - 1), lo, on - 2)
    ensures Sorted(o, Swap(s, on, on - 1), on - 1, top)
    ensures lo < on - 1 < top ==> !Before(o, Swap(s, on, on - 1)[on], Swap(s, on, on - 1)[on - 2])
  {
    var s' := Swap(s, on, on - 1);
    assert !Before(o, s[on - 1], s[on]);
    forall i | on - 1 <= i && i + 1 <= top
      ensures !Before(o, s'[i + 1], s'[i])
    {
      if i > on {
        assert s'[i + 1] == s[i + 1] && s'[i] == s[i];
      }
    }
  }

  /** With gap 1 a chain pass is an insertion sort of lo .. last. */
  lemma {:induction false} PassSorts(t: Tests, o: Order, s: seq<Alt>, e: nat, lo: nat, last: nat)
    requires Consistent(t, o) && lo <= e <= last < |s| && Sorted(o, s, lo, e)
    ensures Sorted(o, Pass(t, s, e, 1, lo, last), lo, last)
    decreases last - e
  {
    if e + 1 <= last {
      if Swaps(t, s[e], s[e + 1]) {
        SinkSorts(t, o, Swap(s, e, e + 1), e, lo, e + 1);
      }
      PassSorts(t, o, PairStep(t, s, e, 1, lo), e + 1, lo, last);
    }
  }

  /** A chain pass over slots already in order swaps nothing. */
  lemma {:induction false} PassKeeps(t: Tests, o: Order, s: seq<Alt>, e: nat, lo: nat, last: nat)
    requires Consistent(t, o) && last < |s| && Sorted(o, s, e, last)
    ensures Pass(t, s, e, 1, lo, last) == s
    decreases last - e
  {
    if e + 1 <= last {
      assert !Swaps(t, s[e], s[e + 1]);
      PassKeeps(t, o, s, e + 1, lo, last);
    }
  }

  /** The round with gap 1 leaves lo .. last in order. */
  lemma ChainsSort(t: Tests, o: Order, s: seq<Alt>, lo: nat, last: nat)
    requires Consistent(t, o) && lo <= last < |s|
    ensures Sorted(o, Chains(t, s, lo, 1, lo, last), lo, last)
  {
    var p := Pass(t, s, lo, 1, lo, last);
    PassSorts(t, o, s, lo, lo, last);
    PassKeeps(t, o, p, lo + 1, lo, last);
    assert Chains(t, p, lo + 1, 1, lo, last) == Chains(t, p, lo + 2, 1, lo, last);
  }

  /** The gaps 1, 4, 13, 40, ...: each is 3 times the one below plus 1. */
  ghost predicate Knuth(h: nat)
    decreases h
  {
    h == 1 || (h >= 4 && (h - 1) % 3 == 0 && Knuth((h - 1) / 3))
  }

  lemma {:induction false} GrowKnuth(h: nat, numElm: nat)
    requires h >= 1 && Knuth(h)
    ensures Knuth(Grow(h, numElm))
    decreases numElm - h
  {
    if h < numElm {
      assert (3 * h + 1 - 1) / 3 == h;
      GrowKnuth(3 * h + 1, numElm);
    }
  }

  /** Two or more elements give a first gap of the form 3h + 1 (so the last
    * round has gap 1); fewer give no round at all. */
  lemma StartGapKnuth(numElm: nat)
    ensures numElm >= 2 ==> StartGap(numElm) >= 1 && Knuth(StartGap(numElm))
    ensures numElm <= 1 ==> StartGap(numElm) == 0
  {
    GrowKnuth(1, numElm);
  }

  /** Rounds whose gaps end in 1 leave lo .. last in order. */
  lemma {:induction false} RoundsSort(t: Tests, o: Order, s: seq<Alt>, sub: nat, lo: nat, last: nat)
    requires Consistent(t, o) && lo <= last < |s| && sub >= 1 && Knuth(sub)
    ensures Sorted(o, Rounds(t, s, sub, lo, last), lo, last)
    decreases sub
  {
    var c := Chains(t, s, lo, sub, lo, last);
    if sub == 1 {
      ChainsSort(t, o, s, lo, last);
      assert Rounds(t, s, sub, lo, last) == Rounds(t, c, 0, lo, last) == c;
    } else {
      RoundsSort(t, o, c, (sub - 1) / 3, lo, last);
    }
  }

  /** A shell sort with comparisons consistent with o, over two or more
    * counted elements, leaves lo .. last in order o; with fewer it changes
    * nothing. */
  lemma ShellSortOrders(t: Tests, o: Order, s: seq<Alt>, numElm: nat, lo: nat, last: nat)
    requires Consistent(t, o) && lo <= last < |s|
    ensures numElm >= 2 ==> Sorted(o, ShellSort(t, s, numElm, lo, last), lo, last)
    ensures numElm <= 1 ==> ShellSort(t, s, numElm, lo, last) == s
  {
    StartGapKnuth(numElm);
    if numElm >= 2 {
      RoundsSort(t, o, s, StartGap(numElm), lo, last);
    }
  }

  // ---------------------------------------------------------------------------
  // The sorts of an alnMatrix
  // ---------------------------------------------------------------------------

  /** The three alternative-alignment arrays of m are allocated and parallel. */
  ghost predicate HasAlts(m: AlnMatrix)
    reads m
  {
    && m.scoreAry != null && m.startIndexAry != null && m.endIndexAry != null
    && Parallel(m.scoreAry, m.startIndexAry, m.endIndexAry) && m.lenRef >= 0
  }

  ghost function AltsOf(m: AlnMatrix): seq<Alt>
    reads m, m.scoreAry, m.startIndexAry, m.endIndexAry
    requires HasAlts(m)
  {
    Alts(m.scoreAry, m.startIndexAry, m.endIndexAry)
  }

  /** alnMatrixSortScores as written: the gaps are counted from endElm -
    * firstElm, every chain starts at slot 0, and the swap test moves the
    * greater score later. */
  method AlnMatrixSortScoresAsWritten(m: AlnMatrix, first: nat, last: nat)
    requires HasAlts(m) && first <= last < m.scoreAry.Length
    modifies m.scoreAry, m.startIndexAry, m.endIndexAry
    ensures AltsOf(m) == ShellSort(ScoreAsWritten, old(AltsOf(m)), last - first, 0, last)
  {
    ShellSortSlots(m.scoreAry, m.startIndexAry, m.endIndexAry, ScoreAsWritten, last - first, 0, last);
  }

  /** alnMatrixSortScores as documented: slots firstElm .. endElm (both
    * included) sorted greatest score first. */
  method AlnMatrixSortScores(m: AlnMatrix, first: nat, last: nat)
    requires HasAlts(m) && first <= last < m.scoreAry.Length
    modifies m.scoreAry, m.startIndexAry, m.endIndexAry
    ensures AltsOf(m) == ShellSort(ScoreGreatestFirst, old(AltsOf(m)), last - first + 1, first, last)
  {
    ShellSortSlots(m.scoreAry, m.startIndexAry, m.endIndexAry, ScoreGreatestFirst, last - first + 1, first, last);
  }

  /** sortQryScores as written: the swap test moves the lower query start
    * later while the sink test moves it earlier. */
  method SortQryScoresAsWritten(m: AlnMatrix, first: nat, last: nat)
    requires HasAlts(m) && first <= last < m.scoreAry.Length
    modifies m.scoreAry, m.startIndexAry, m.endIndexAry
    ensures AltsOf(m) == ShellSort(QryAsWritten(m.lenRef), old(AltsOf(m)), last - first, 0, last)
  {
    ShellSortSlots(m.scoreAry, m.startIndexAry, m.endIndexAry, QryAsWritten(m.lenRef), last - first, 0, last);
  }

  /** sortQryScores as documented: slots firstElm .. endElm sorted by query
    * start, lowest first, and then by score, highest first. */
  method SortQryScores(m: AlnMatrix, first: nat, last: nat)
    requires HasAlts(m) && first <= last < m.scoreAry.Length
    modifies m.scoreAry, m.startIndexAry, m.endIndexAry
    ensures AltsOf(m) == ShellSort(QryLowestFirst(m.lenRef), old(AltsOf(m)), last - first + 1, first, last)
  {
    ShellSortSlots(m.scoreAry, m.startIndexAry, m.endIndexAry, QryLowestFirst(m.lenRef), last - first + 1, first, last);
  }

  /** alnMatrixSortScores as written reorders slots 0 .. endElm lowest score
    * first, the reverse of its documented greatest-to-least, and only when
    * endElm - firstElm is at least 2; otherwise it changes nothing. */
  lemma AlnMatrixSortAsWrittenAscends(s: seq<Alt>, first: nat, last: nat)
    requires first <= last < |s|
    ensures var r := ShellSort(ScoreAsWritten, s, last - first, 0, last);
            && Permutes(s, r, 0, last)
            && (last - first >= 2 ==> Sorted(Ascending, r, 0, last))
            && (last - first <= 1 ==> r == s)
  {
    ConsistentTests(0);
    ShellSortOrders(ScoreAsWritten, Ascending, s, last - first, 0, last);
    ShellSortPermutes(ScoreAsWritten, s, last - first, 0, last);
  }

  /** Two slots (firstElm 0, endElm 1) are left as they are, lower score
    * first. */
  lemma AlnMatrixSortAsWrittenKeepsPair()
    ensures var s := [Alt(1, 0, 0), Alt(2, 0, 0)];
            ShellSort(ScoreAsWritten, s, 1, 0, 1) == s && !Sorted(Descending, s, 0, 1)
  {
    StartGapKnuth(1);
    var s := [Alt(1, 0, 0), Alt(2, 0, 0)];
    assert Before(Descending, s[1], s[0]);
  }

  /** The corrected alnMatrixSortScores leaves firstElm .. endElm greatest
    * score first, each slot's score, start and end still together. */
  lemma AlnMatrixSortScoresDescends(s: seq<Alt>, first: nat, last: nat)
    requires first <= last < |s|
    ensures var r := ShellSort(ScoreGreatestFirst, s, last - first + 1, first, last);
            Permutes(s, r, first, last) && Sorted(Descending, r, first, last)
  {
    ConsistentTests(0);
    ShellSortOrders(ScoreGreatestFirst, Descending, s, last - first + 1, first, last);
    ShellSortPermutes(ScoreGreatestFirst, s, last - first + 1, first, last);
  }

  /** sortQryScores as written, on three slots with query starts 0, 1, 2
    * (reference length 1), returns query starts 1, 2, 0. */
  lemma SortQryAsWrittenMisorders()
    ensures var s := [Alt(1, 3, 3), Alt(1, 5, 5), Alt(1, 7, 7)];
            var r := ShellSort(QryAsWritten(1), s, 2, 0, 2);
            && Qry(1, 3) == 0 && Qry(1, 5) == 1 && Qry(1, 7) == 2
            && r == [s[1], s[2], s[0]] && !Sorted(QryThenScore(1), r, 0, 2)
  {
    var t := QryAsWritten(1);
    var a, b, c := Alt(1, 3, 3), Alt(1, 5, 5), Alt(1, 7, 7);
    var s := [a, b, c];
    assert Qry(1, 3) == 0 && Qry(1, 5) == 1 && Qry(1, 7) == 2;
    assert StartGap(2) == 1 by {
      assert Grow(1, 2) == Grow(4, 2) == 4;
    }
    var s1 := [b, a, c];
    assert PairStep(t, s, 0, 1, 0) == s1 by {
      assert Swap(s, 0, 1) == s1;
    }
    var s2 := [b, c, a];
    assert PairStep(t, s1, 1, 1, 0) == s2 by {
      assert Swap(s1, 1, 2) == s2;
      assert !Sinks(t, c, b);
    }
    assert Pass(t, s, 0, 1, 0, 2) == s2 by {
      assert Pass(t, s2, 2, 1, 0, 2) == s2;
    }
    assert Pass(t, s2, 1, 1, 0, 2) == s2 by {
      assert PairStep(t, s2, 1, 1, 0) == s2;
      assert Pass(t, s2, 2, 1, 0, 2) == s2;
    }
    assert Chains(t, s, 0, 1, 0, 2) == s2 by {
      assert Chains(t, s2, 2, 1, 0, 2) == s2;
    }
    assert ShellSort(t, s, 2, 0, 2) == Rounds(t, s2, 0, 0, 2) == s2;
    assert Before(QryThenScore(1), s2[2], s2[1]);
  }

  /** The corrected sortQryScores leaves firstElm .. endElm query start
    * lowest first and, for one query start, highest score first. */
  lemma SortQryScoresOrders(refLen: nat, s: seq<Alt>, first: nat, last: nat)
    requires first <= last < |s|
    ensures Permutes(s, ShellSort(QryLowestFirst(refLen), s, last - first + 1, first, last), first, last)
    ensures Sorted(QryThenScore(refLen), ShellSort(QryLowestFirst(refLen), s, last - first + 1, first, last), first, last)
  {
    ConsistentTests(refLen);
    ShellSortOrders(QryLowestFirst(refLen), QryThenScore(refLen), s, last - first + 1, first, last);
    ShellSortPermutes(QryLowestFirst(refLen), s, last - first + 1, first, last);
  }

  // ---------------------------------------------------------------------------
  // altScoreFiltQry as functions of the slots
  // ---------------------------------------------------------------------------

  /** One pass of the filter loop at slot `on`, p being the slot of the
    * alignment kept last: a zero score is skipped; a blank kept slot takes
    * the alignment; an alignment starting on the query at or before the end
    * of the kept one overlaps it and replaces it only with a higher score;
    * any other alignment is kept in the next slot. */
  function FiltStep(refLen: nat, s: seq<Alt>, p: nat, on: nat): (r: (seq<Alt>, nat))
    requires p <= on < |s|
    ensures |r.0| == |s| && r.1 <= on + 1
  {
    if s[on].score == 0 then (s, p)
    else if s[p].score == 0 then (s[p := s[on]], p)
    else if Qry(refLen, s[on].start) <= Qry(refLen, s[p].end) then
      (if s[p].score < s[on].score then (s[p := s[on]], p) else (s, p))
    else if p != on then (s[p + 1 := s[on]], p + 1)
    else (s, p + 1)
  }

  /** The filter loop from slot `on` to the end. */
  function FiltFrom(refLen: nat, s: seq<Alt>, p: nat, on: nat): (r: (seq<Alt>, nat))
    requires p <= on <= |s|
    ensures |r.0| == |s| && r.1 <= |s|
    decreases |s| - on
  {
    if on == |s| then (s, p)
    else
      var n := FiltStep(refLen, s, p, on);
      FiltFrom(refLen, n.0, n.1, on + 1)
  }

  /** Slots from .. to - 1 with their scores set to 0. */
  function Blank(s: seq<Alt>, from: nat, to: nat): (r: seq<Alt>)
    ensures |r| == |s|
  {
    seq(|s|, k requires 0 <= k < |s| => if from <= k < to then s[k].(score := 0) else s[k])
  }

  /** The filter over slots already sorted: the loop, the step off the last
    * kept slot, and the zeroed scores after it; with the number of slots
    * kept. */
  function Filter(refLen: nat, s: seq<Alt>): (r: (seq<Alt>, nat))
    requires |s| >= 1
    ensures |r.0| == |s|
  {
    var f := FiltFrom(refLen, s, 0, 0);
    var kept := if f.1 < |s| then f.1 + 1 else f.1;
    (Blank(f.0, kept, |s|), kept)
  }

  /** altScoreFiltQry: the slots sorted query start lowest first, then
    * filtered. */
  function AltScoreFilt(refLen: nat, s: seq<Alt>): (r: (seq<Alt>, nat))
    requires |s| >= 1
    ensures |r.0| == |s|
  {
    Filter(refLen, ShellSort(QryLowestFirst(refLen), s, |s|, 0, |s| - 1))
  }

  // ---------------------------------------------------------------------------
  // altScoreFiltQry over the arrays
  // ---------------------------------------------------------------------------

  /** Slot dst of all three arrays takes the alignment of slot src. */
  method CopySlot(score: array<int>, start: array<nat>, end: array<nat>, dst: nat, src: nat)
    requires Parallel(score, start, end) && dst < score.Length && src < score.Length
    modifies score, start, end
    ensures Alts(score, start, end) == old(Alts(score, start, end))[dst := old(Alts(score, start, end))[src]]
  {
    score[dst] := score[src];
    start[dst] := start[src];
    end[dst] := end[src];
  }

  /** The body of the filter loop for slot `on`. */
  method FiltSlot(score: array<int>, start: array<nat>, end: array<nat>, refLen: nat, p: nat, on: nat)
    returns (p': nat)
    requires Parallel(score, start, end) && p <= on < score.Length
    modifies score, start, end
    ensures (Alts(score, start, end), p') == FiltStep(refLen, old(Alts(score, start, end)), p, on)
  {
    if score[on] == 0 {
      return p;
    }
    if score[p] == 0 {
      CopySlot(score, start, end, p, on);
      return p;
    }
    var qryEnd := Qry(refLen, end[p]);
    var nextQryStart := Qry(refLen, start[on]);
    if nextQryStart <= qryEnd {
      if score[p] < score[on] {
        CopySlot(score, start, end, p, on);
      }
      p' := p;
    } else if p != on {
      CopySlot(score, start, end, p + 1, on);
      p' := p + 1;
    } else {
      p' := p + 1;
    }
  }

  /** The filter over the three arrays, already sorted. */
  method FilterSlots(score: array<int>, start: array<nat>, end: array<nat>, refLen: nat)
    requires Parallel(score, start, end) && score.Length >= 1
    modifies score, start, end
    ensures Alts(score, start, end) == Filter(refLen, old(Alts(score, start, end))).0
  {
    var numElm := score.Length;
    var p: nat, on: nat := 0, 0;
    while on < numElm
      invariant p <= on <= numElm
      invariant FiltFrom(refLen, Alts(score, start, end), p, on) == FiltFrom(refLen, old(Alts(score, start, end)), 0, 0)
      decreases numElm - on
    {
      p := FiltSlot(score, start, end, refLen, p, on);
      on := on + 1;
    }
    if p < on {
      p := p + 1;
    }
    BlankSlots(score, start, end, p);
  }

  /** Slot p keeps its alignment with its score set to 0. */
  method ZeroSlot(score: array<int>, start: array<nat>, end: array<nat>, p: nat)
    requires Parallel(score, start, end) && p < score.Length
    modifies score
    ensures Alts(score, start, end) == old(Alts(score, start, end))[p := old(Alts(score, start, end))[p].(score := 0)]
  {
    score[p] := 0;
  }

  /** The scores of the slots from `from` on are set to 0. */
  method BlankSlots(score: array<int>, start: array<nat>, end: array<nat>, from: nat)
    requires Parallel(score, start, end) && from <= score.Length
    modifies score
    ensures Alts(score, start, end) == Blank(old(Alts(score, start, end)), from, score.Length)
  {
    ghost var f := Alts(score, start, end);
    var p := from;
    while p < score.Length
      invariant from <= p <= score.Length
      invariant Alts(score, start, end) == Blank(f, from, p)
      decreases score.Length - p
    {
      ZeroSlot(score, start, end, p);
      BlankStep(f, from, p);
      p := p + 1;
    }
  }

  /** Zeroing slot p extends the blanked range by one. */
  lemma BlankStep(f: seq<Alt>, from: nat, p: nat)
    requires from <= p < |f|
    ensures Blank(f, from, p)[p := Blank(f, from, p)[p].(score := 0)] == Blank(f, from, p + 1)
  {
    var b, c := Blank(f, from, p)[p := Blank(f, from, p)[p].(score := 0)], Blank(f, from, p + 1);
    assert forall k :: 0 <= k < |f| ==> b[k] == c[k];
  }

  /** altScoreFiltQry: sorts the slots with the corrected sortQryScores,
    * keeps the best-scoring alignment of each run overlapping on the query,
    * and zeroes the scores of the slots left over. */
  method AltScoreFiltQry(m: AlnMatrix)
    requires HasAlts(m) && m.lenArrays == m.scoreAry.Length && m.lenArrays >= 1
    modifies m.scoreAry, m.startIndexAry, m.endIndexAry
    ensures AltsOf(m) == AltScoreFilt(m.lenRef, old(AltsOf(m))).0
  {
    var numElm: nat := m.lenArrays;
    SortQryScores(m, 0, numElm - 1);
    FilterSlots(m.scoreAry, m.startIndexAry, m.endIndexAry, m.lenRef);
  }

  // ---------------------------------------------------------------------------
  // What the filter keeps
  // ---------------------------------------------------------------------------

  /** Every alignment starts on the query no later than it ends. */
  ghost predicate WellFormed(refLen: nat, s: seq<Alt>)
  {
    forall i {:trigger Spans(refLen, s[i])} :: 0 <= i < |s| ==> Spans(refLen, s[i])
  }

  /** An alignment starts on the query no later than it ends. */
  ghost predicate Spans(refLen: nat, a: Alt)
  {
    Qry(refLen, a.start) <= Qry(refLen, a.end)
  }

  /** Alignment a starts on the query no later than alignment b. */
  ghost predicate StartsNoLater(refLen: nat, a: Alt, b: Alt)
  {
    Qry(refLen, a.start) <= Qry(refLen, b.start)
  }

  /** Alignment a ends on the query before alignment b starts. */
  ghost predicate Apart(refLen: nat, a: Alt, b: Alt)
  {
    Qry(refLen, a.end) < Qry(refLen, b.start)
  }

  /** Query starts never fall from one slot to a later one. */
  ghost predicate StartsRise(refLen: nat, s: seq<Alt>)
  {
    forall i, j {:trigger StartsNoLater(refLen, s[i], s[j])} :: 0 <= i <= j < |s| ==> StartsNoLater(refLen, s[i], s[j])
  }

  lemma {:induction false} SortedStartsRise(refLen: nat, s: seq<Alt>)
    requires |s| >= 1 && Sorted(QryThenScore(refLen), s, 0, |s| - 1)
    ensures StartsRise(refLen, s)
  {
    if |s| > 1 {
      var t := s[..|s| - 1];
      assert Sorted(QryThenScore(refLen), t, 0, |t| - 1) by {
        forall i | 0 <= i && i + 1 <= |t| - 1
          ensures !Before(QryThenScore(refLen), t[i + 1], t[i])
        {
          assert t[i] == s[i] && t[i + 1] == s[i + 1];
        }
      }
      SortedStartsRise(refLen, t);
      forall i, j | 0 <= i <= j < |s|
        ensures StartsNoLater(refLen, s[i], s[j])
      {
        if j == |s| - 1 && i < j {
          assert t[i] == s[i] && t[j - 1] == s[j - 1];
          assert StartsNoLater(refLen, t[i], t[j - 1]);
          assert !Before(QryThenScore(refLen), s[j], s[j - 1]);
        } else if i < j {
          assert t[i] == s[i] && t[j] == s[j];
          assert StartsNoLater(refLen, t[i], t[j]);
        }
      }
    }
  }

  /** The best score among slots 0 .. p. */
  function MaxScore(s: seq<Alt>, p: nat): (m: int)
    requires p < |s|
    ensures forall i :: 0 <= i <= p ==> s[i].score <= m
    ensures exists i :: 0 <= i <= p && s[i].score == m
    decreases p
  {
    if p == 0 then s[0].score
    else if MaxScore(s, p - 1) < s[p].score then s[p].score
    else MaxScore(s, p - 1)
  }

  /** The state of the filter loop over input s0 at slot `on`, p being the
    * slot kept last:
    *   slots from `on` on still hold the input;
    *   every slot up to p holds an input alignment;
    *   slot p starts on the query no later than any alignment not yet seen;
    *   the slots below p have nonzero scores;
    *   slot p is blank only while every alignment seen so far is blank;
    *   the slots up to p follow each other on the query without overlap;
    *   every nonzero alignment seen so far scores no higher than the best
    *   slot up to p. */
  ghost predicate FiltInv(refLen: nat, s0: seq<Alt>, s: seq<Alt>, p: nat, on: nat)
  {
    && |s| == |s0| && p <= on <= |s0| && p < |s0|
    && Untouched(s0, s, on) && FromInput(s0, s, p) && Leads(refLen, s0, s, p, on)
    && NonzeroBelow(s, p) && BlankFirst(s0, s, p, on) && Disjoint(refLen, s, p)
    && Dominated(s0, s, p, on)
  }

  ghost predicate Untouched(s0: seq<Alt>, s: seq<Alt>, on: nat)
    requires |s| == |s0|
  {
    forall j {:trigger s[j]} :: on <= j < |s0| ==> s[j] == s0[j]
  }

  ghost predicate FromInput(s0: seq<Alt>, s: seq<Alt>, p: nat)
    requires p < |s|
  {
    forall i :: 0 <= i <= p ==> s[i] in s0
  }

  ghost predicate Leads(refLen: nat, s0: seq<Alt>, s: seq<Alt>, p: nat, on: nat)
    requires p < |s|
  {
    forall j :: on <= j < |s0| ==> StartsNoLater(refLen, s[p], s0[j])
  }

  ghost predicate NonzeroBelow(s: seq<Alt>, p: nat)
    requires p < |s|
  {
    forall i :: 0 <= i < p ==> s[i].score != 0
  }

  ghost predicate BlankFirst(s0: seq<Alt>, s: seq<Alt>, p: nat, on: nat)
    requires p < |s| && on <= |s0|
  {
    s[p].score == 0 ==> p == 0 && forall j :: 0 <= j < on ==> s0[j].score == 0
  }

  ghost predicate Disjoint(refLen: nat, s: seq<Alt>, p: nat)
    requires p < |s|
  {
    forall i, j {:trigger Apart(refLen, s[i], s[j])} :: 0 <= i < j <= p ==> Apart(refLen, s[i], s[j])
  }

  ghost predicate Dominated(s0: seq<Alt>, s: seq<Alt>, p: nat, on: nat)
    requires p < |s| && on <= |s0|
  {
    forall j :: 0 <= j < on && s0[j].score != 0 ==> s0[j].score <= MaxScore(s, p)
  }
}
