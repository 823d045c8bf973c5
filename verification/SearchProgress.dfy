/** How far the segment search has got, and that every step of it keeps that. */
module SearchProgress {
  import opened Powers
  import opened DyadicIntervals
  import opened SegmentRuns

  /** The search so far has found every accepted interval of power n in the unit interval, in full. */
  ghost predicate Exact(p: Predicate, m: nat, spans: seq<(int, int)>, n: int) {
    Searchable(p, m) && AllRuns(p, m, spans) && Done(p, spans, n, m)
  }

  lemma StartsExact(p: Predicate, m: nat)
    requires Searchable(p, m)
    ensures Exact(p, m, [], 0)
  {
    NothingAtDepthZero(p, m);
  }

  /** What holds between two steps of the search at depth n, with candidate k next. */
  ghost predicate Progress(p: Predicate, m: nat, spans: seq<(int, int)>, k: int, n: int) {
    Exact(p, m, spans, n - 1) && DoneRightOf(p, spans, k, n, m)
  }

  lemma NothingRightOfUnit(p: Predicate, m: nat, spans: seq<(int, int)>, n: nat)
    ensures DoneRightOf(p, spans, Pow2(n) - 1, n, m)
  {
  }

  lemma DepthDone(p: Predicate, m: nat, spans: seq<(int, int)>, k: int, n: nat)
    requires k < 0 && Progress(p, m, spans, k, n)
    ensures Exact(p, m, spans, n)
  {
  }

  lemma RejectedStart(p: Predicate, n: nat, k: int)
    requires k == Pow2(n) - 1
    ensures RejectedRightOf(p, k, n)
  {
  }

  /** One more candidate. */
  lemma RejectedStep(p: Predicate, d: DyadicInterval, k: int)
    requires k < d.multiplier && InUnit(d)
    ensures p(d) ==> !RejectedRightOf(p, k, d.power)
    ensures k == d.multiplier - 1 ==>
              (RejectedRightOf(p, k, d.power) <==> RejectedRightOf(p, d.multiplier, d.power) && !p(d))
    ensures RejectedRightOf(p, k, d.power) ==> RejectedRightOf(p, d.multiplier, d.power)
  {
    assert DyadicInterval(d.multiplier, d.power) == d;
    assert RejectedRightOf(p, k, d.power) ==> !p(DyadicInterval(d.multiplier, d.power));
  }

  lemma RejectedDone(p: Predicate, n: int, k: int)
    requires k < 0
    ensures RejectedRightOf(p, k, n) <==> RejectedRightOf(p, -1, n)
  {
    if RejectedRightOf(p, -1, n) {
      forall j | k < j && InUnit(DyadicInterval(j, n))
        ensures !p(DyadicInterval(j, n))
      {
        assert -1 < j;
      }
    }
  }

  /** One find keeps the progress and settles the candidate itself. */
  lemma FindKeepsProgress(p: Predicate, m: nat, before: seq<(int, int)>, after: seq<(int, int)>,
                          at: nat, span: (int, int), inserted: bool, d: DyadicInterval)
    requires Progress(p, m, before, d.multiplier, d.power) && 1 <= d.power <= m && p(d) && InUnit(d)
    requires NoneCovers(before, d, m) && CoversWindow(span, d, m)
    requires Recorded(before, after, at, span, inserted) && Descending(after)
    requires !inserted ==> at < |before| && before[at].1 == span.1
    requires AllGood(p, m, span.0, span.1)
    requires !p(LeftCandidate(p, d)) ==> !GoodBefore(p, m, span.0)
    requires !p(d.Next()) ==> !Good(p, m, span.1)
    ensures Progress(p, m, after, d.multiplier - 1, d.power)
  {
    hide Coherent, AllRuns, Done, DoneRightOf, Recorded, LeftCandidate, AllGood, Descending, CoversWindow, Apart;
    assert !Covered(before, d, m);
    FreshFindIsBlocked(p, m, before, d);
    FoundIsInnerRun(p, m, span, d);
    FreshRunIsNew(p, m, before, span, d);
    assert inserted by {
      assert !inserted ==> Apart(before[at], span);
      if !inserted {
        OverwrittenIsNotApart(before, at, span, p, m);
      }
    }
    RunsGrow(p, before, after, at, span, m);
    CoveredGrows(before, after, at, span, d, m);
    SettledGrows(p, m, before, after, at, span, d);
    SettledKeepsProgress(p, m, after, d);
  }

  lemma OverwrittenIsNotApart(before: seq<(int, int)>, at: nat, span: (int, int), p: Predicate, m: nat)
    requires at < |before| && before[at].1 == span.1 && span.0 < span.1 && AllRuns(p, m, before)
    ensures !Apart(before[at], span)
  {
    assert InnerRun(p, m, before[at].0, before[at].1);
  }

  /** What a blocked find grows to is maximal in the unit interval. */
  lemma FoundIsInnerRun(p: Predicate, m: nat, span: (int, int), d: DyadicInterval)
    requires d.power <= m && InUnit(d) && CoversWindow(span, d, m) && AllGood(p, m, span.0, span.1)
    requires d.multiplier > 0 ==> !GoodBefore(p, m, span.0)
    requires InUnit(d.Next()) ==> !Good(p, m, span.1)
    ensures InnerRun(p, m, span.0, span.1)
  {
    UnitWindow(d, m);
    if d.multiplier == 0 {
      assert d.Lo(m) == 0;
    }
    if !InUnit(d.Next()) {
      LastInUnit(d, m);
    }
  }

  lemma LastInUnit(d: DyadicInterval, m: nat)
    requires d.power <= m && InUnit(d) && !InUnit(d.Next())
    ensures d.Hi(m) == Pow2(m)
  {
    Pow2Add(d.power, m - d.power);
  }

  lemma SettledGrows(p: Predicate, m: nat, before: seq<(int, int)>, after: seq<(int, int)>,
                     at: nat, span: (int, int), d: DyadicInterval)
    requires Recorded(before, after, at, span, true)
    requires Done(p, before, d.power - 1, m) && DoneRightOf(p, before, d.multiplier, d.power, m)
    ensures Done(p, after, d.power - 1, m) && DoneRightOf(p, after, d.multiplier, d.power, m)
  {
    DoneGrows(p, m, before, after, at, span, -1, d.power - 1);
    DoneGrows(p, m, before, after, at, span, d.multiplier, d.power);
  }

  lemma DoneGrows(p: Predicate, m: nat, before: seq<(int, int)>, after: seq<(int, int)>, at: nat, span: (int, int),
                  k: int, n: int)
    requires Recorded(before, after, at, span, true) && DoneRightOf(p, before, k, n, m)
    ensures DoneRightOf(p, after, k, n, m)
  {
    forall j | k < j && InUnit(DyadicInterval(j, n))
      ensures Settled(p, after, DyadicInterval(j, n), m)
    {
      assert Settled(p, before, DyadicInterval(j, n), m);
      CoveredGrows(before, after, at, span, DyadicInterval(j, n), m);
    }
  }

  lemma SettledKeepsProgress(p: Predicate, m: nat, spans: seq<(int, int)>, d: DyadicInterval)
    requires DoneRightOf(p, spans, d.multiplier, d.power, m) && Settled(p, spans, d, m)
    ensures DoneRightOf(p, spans, d.multiplier - 1, d.power, m)
  {
    forall j | d.multiplier - 1 < j && InUnit(DyadicInterval(j, d.power))
      ensures Settled(p, spans, DyadicInterval(j, d.power), m)
    {
      if j == d.multiplier {
        assert DyadicInterval(j, d.power) == d;
      }
    }
  }

  /** Between two candidates there is nothing left to find. */
  ghost predicate SkipsOnlySettled(p: Predicate, spans: seq<(int, int)>, from: int, to: int, n: int, m: nat) {
    forall j {:trigger Settled(p, spans, DyadicInterval(j, n), m)} ::
      to < j < from && InUnit(DyadicInterval(j, n)) ==>
        Settled(p, spans, DyadicInterval(j, n), m)
  }

  ghost predicate NoneCovers(spans: seq<(int, int)>, d: DyadicInterval, m: nat) {
    forall i :: 0 <= i < |spans| ==> !CoversWindow(spans[i], d, m)
  }

  lemma SkipsNothing(p: Predicate, spans: seq<(int, int)>, k: int, n: int, m: nat)
    ensures SkipsOnlySettled(p, spans, k, k - 1, n, m)
  {
  }

  lemma SkipsJoin(p: Predicate, spans: seq<(int, int)>, from: int, mid: int, to: int, n: int, m: nat)
    ensures SkipsOnlySettled(p, spans, from, mid - 1, n, m) && SkipsOnlySettled(p, spans, mid, to - 1, n, m) ==>
              SkipsOnlySettled(p, spans, from, to - 1, n, m)
  {
  }

  /** Spans whose start is to the right, and spans whose end is too far to the left, do not cover. */
  lemma CandidateIsNew(spans: seq<(int, int)>, i: nat, d: DyadicInterval, m: nat)
    requires Descending(spans) && i <= |spans| && d.power <= m
    requires forall j :: 0 <= j < i ==> d.Lo(m) < spans[j].0
    requires i < |spans| ==> d.Hi(m) > spans[i].1
    ensures NoneCovers(spans, d, m)
  {
  }

  /** Moving on keeps the progress. */
  lemma MoveKeepsProgress(p: Predicate, m: nat, spans: seq<(int, int)>, n: int, k: int, k': int)
    requires Exact(p, m, spans, n - 1) && DoneRightOf(p, spans, k - 1, n, m)
    requires SkipsOnlySettled(p, spans, k, k', n, m)
    ensures Progress(p, m, spans, k', n)
  {
  }

  /** What of the spans lies in the unit interval is exactly the maximal runs there, from right to
      left, and no two spans touch. */
  ghost predicate ExactRuns(p: Predicate, m: nat, spans: seq<(int, int)>) {
    && (forall a, b :: UnitRun(p, m, a, b) <==> (a, b) in Clips(spans, m))
    && (forall i, j :: 0 <= i < j < |spans| ==> spans[j].1 < spans[i].0)
  }

  ghost predicate AllCovered(p: Predicate, m: nat, spans: seq<(int, int)>) {
    forall d: DyadicInterval :: InUnit(d) && d.power <= m && p(d) ==> Covered(spans, d, m)
  }

  /** Without anything accepted outside, the spans are the maximal runs themselves. */
  ghost predicate WholeRuns(p: Predicate, m: nat, spans: seq<(int, int)>) {
    Confined(p, m) ==> forall a, b :: Run(p, m, a, b) <==> (a, b) in spans
  }

  lemma ExactMeansRuns(p: Predicate, m: nat, spans: seq<(int, int)>)
    requires Exact(p, m, spans, m) && MeetUnit(spans, m)
    ensures ExactRuns(p, m, spans) && AllCovered(p, m, spans) && WholeRuns(p, m, spans)
  {
    hide Clips;
    forall a, b
      ensures UnitRun(p, m, a, b) <==> (a, b) in Clips(spans, m)
    {
      SpansAreRuns(p, m, spans, a, b);
    }
    forall d: DyadicInterval | InUnit(d) && d.power <= m && p(d)
      ensures Covered(spans, d, m)
    {
      AcceptedIsCovered(p, m, spans, d);
    }
    if Confined(p, m) {
      ConfinedRuns(p, m, spans);
    }
  }
}
