/** What the segment searcher looks for, the maximal runs of good grains, and the facts about
    them that its steps rest on. */
module SegmentRuns {
  import opened Powers
  import opened Dyadics
  import opened DyadicIntervals
  import opened Dissection

  type Predicate = DyadicInterval -> bool

  /** One entry of the seen map. The map is keyed by the end and ordered from the right. */
  datatype Seen = Seen(sup: Dyadic, inf: Dyadic) {
    /** Both ends in grains of depth m. */
    ghost predicate Spans(m: nat, span: (int, int)) {
      && inf.power <= m && inf.Scaled(m) == span.0
      && sup.power <= m && sup.Scaled(m) == span.1
    }
  }

  // ----- what the search is looking for -----

  /** Acceptance of a grain, the smallest interval the search looks at. */
  predicate Good(p: Predicate, m: nat, x: int) {
    p(DyadicInterval(x, m))
  }

  predicate GoodBefore(p: Predicate, m: nat, x: int) {
    Good(p, m, x - 1)
  }

  ghost predicate AllGood(p: Predicate, m: nat, a: int, b: int) {
    forall x :: a <= x < b ==> Good(p, m, x)
  }

  /** [a, b) is a maximal run of good grains. */
  ghost predicate Run(p: Predicate, m: nat, a: int, b: int) {
    a < b && AllGood(p, m, a, b) && !Good(p, m, a - 1) && !Good(p, m, b)
  }

  /** [a, b) cannot be made longer inside the unit interval; whether it goes on beyond an end of
      that is left open. */
  ghost predicate InnerRun(p: Predicate, m: nat, a: int, b: int) {
    && a < b && AllGood(p, m, a, b)
    && (a > 0 ==> !Good(p, m, a - 1))
    && (b < Pow2(m) ==> !Good(p, m, b))
  }

  /** A maximal run of good grains of the unit interval. */
  ghost predicate UnitRun(p: Predicate, m: nat, a: int, b: int) {
    0 <= a && b <= Pow2(m) && InnerRun(p, m, a, b)
  }

  predicate InUnit(d: DyadicInterval) {
    d.power >= 0 && 0 <= d.multiplier < Pow2(d.power)
  }

  predicate Splits(p: Predicate, d: DyadicInterval) {
    p(d) <==> p(d.LeftHalf()) && p(d.RightHalf())
  }

  /** The predicate is about what lies in the interval: it holds when it holds on both halves. */
  ghost predicate Coherent(p: Predicate, m: nat) {
    forall d: DyadicInterval :: d.power < m ==> Splits(p, d)
  }

  /** What the search assumes of its predicate: it is coherent and does not accept the whole unit
      interval. What it accepts outside is not restricted. */
  ghost predicate Searchable(p: Predicate, m: nat) {
    Coherent(p, m) && !p(DyadicInterval(0, 0))
  }

  ghost predicate Confined(p: Predicate, m: nat) {
    forall x :: Good(p, m, x) ==> 0 <= x < Pow2(m)
  }

  /** A coherent predicate accepts an interval exactly when every grain in it is good. */
  lemma {:induction false} GrainsDecide(p: Predicate, m: nat, d: DyadicInterval)
    requires Coherent(p, m) && d.power <= m
    ensures p(d) <==> AllGood(p, m, d.Lo(m), d.Hi(m))
    decreases m - d.power
  {
    if d.power == m {
      ShiftZero(d.multiplier);
      ShiftZero(d.multiplier + 1);
      assert p(d) <==> Good(p, m, d.multiplier);
    } else {
      assert Splits(p, d);
      GrainsDecide(p, m, d.LeftHalf());
      GrainsDecide(p, m, d.RightHalf());
      HalfWindows(d, m);
      AllGoodSplit(p, m, d.Lo(m), d.LeftHalf().Hi(m), d.Hi(m));
    }
  }

  lemma AllGoodSplit(p: Predicate, m: nat, a: int, b: int, c: int)
    requires a <= b <= c
    ensures AllGood(p, m, a, c) <==> AllGood(p, m, a, b) && AllGood(p, m, b, c)
  {
  }

  lemma UnitWindow(d: DyadicInterval, m: nat)
    requires InUnit(d) && d.power <= m
    ensures 0 <= d.Lo(m) < d.Hi(m) <= Pow2(m)
  {
    Pow2Add(d.power, m - d.power);
    assert Shift(Pow2(d.power), m - d.power) == Pow2(m) && Shift(0, m - d.power) == 0;
    hide Shift, Pow2;
    ShiftMono(0, d.multiplier, m - d.power);
    ShiftMono(d.multiplier, d.multiplier + 1, m - d.power);
    ShiftMono(d.multiplier + 1, Pow2(d.power), m - d.power);
  }

  /** A good interval of the unit interval that meets or touches an inner run lies inside it. */
  lemma RunAbsorbs(p: Predicate, m: nat, a: int, b: int, d: DyadicInterval)
    requires Coherent(p, m) && InnerRun(p, m, a, b) && d.power <= m && p(d) && InUnit(d)
    requires a <= d.Hi(m) && d.Lo(m) <= b
    ensures a <= d.Lo(m) && d.Hi(m) <= b
  {
    UnitWindow(d, m);
    GrainsDecide(p, m, d);
    assert a > d.Lo(m) ==> Good(p, m, a - 1);
    assert b < d.Hi(m) ==> Good(p, m, b);
  }

  /** Two maximal runs of the unit interval are the same or do not even touch. */
  lemma RunsApart(p: Predicate, m: nat, a: int, b: int, a': int, b': int)
    requires UnitRun(p, m, a, b) && UnitRun(p, m, a', b')
    ensures (a == a' && b == b') || b < a' || b' < a
  {
    if a' <= b && a <= b' {
      assert a' > a ==> Good(p, m, a' - 1);
      assert a > a' ==> Good(p, m, a - 1);
      assert b < b' ==> Good(p, m, b);
      assert b' < b ==> Good(p, m, b');
    }
  }

  predicate CoversWindow(span: (int, int), d: DyadicInterval, m: nat) {
    d.power <= m && span.0 <= d.Lo(m) && d.Hi(m) <= span.1
  }

  ghost predicate Covered(spans: seq<(int, int)>, d: DyadicInterval, m: nat) {
    exists i :: 0 <= i < |spans| && CoversWindow(spans[i], d, m)
  }

  /** The entries from the right: each one ends before the one in front of it starts to end. */
  ghost predicate Descending(spans: seq<(int, int)>) {
    forall i, j :: 0 <= i < j < |spans| ==> spans[i].1 > spans[j].1
  }

  /** Every entry is maximal in the unit interval, and no two touch. */
  ghost predicate AllRuns(p: Predicate, m: nat, spans: seq<(int, int)>) {
    && (forall i :: 0 <= i < |spans| ==> InnerRun(p, m, spans[i].0, spans[i].1))
    && (forall i, j :: 0 <= i < j < |spans| ==> spans[j].1 < spans[i].0)
  }

  // ----- pieces of one find -----

  /** Accepted pieces lying end to end. */
  ghost predicate Chain(p: Predicate, m: nat, pieces: seq<DyadicInterval>, lo: int, hi: int) {
    pieces != [] && Tiles(pieces, lo, hi, m) && forall i :: 0 <= i < |pieces| ==> p(pieces[i])
  }

  lemma ChainOne(p: Predicate, m: nat, d: DyadicInterval)
    requires d.power <= m && p(d)
    ensures Chain(p, m, [d], d.Lo(m), d.Hi(m))
  {
    assert [d][1..] == [];
  }

  lemma ChainFront(p: Predicate, m: nat, d: DyadicInterval, pieces: seq<DyadicInterval>, lo: int, hi: int)
    requires Chain(p, m, pieces, lo, hi) && d.power <= m && p(d) && d.Hi(m) == lo
    ensures Chain(p, m, [d] + pieces, d.Lo(m), hi)
  {
    assert ([d] + pieces)[1..] == pieces;
  }

  lemma ChainBack(p: Predicate, m: nat, d: DyadicInterval, pieces: seq<DyadicInterval>, lo: int, hi: int)
    requires Chain(p, m, pieces, lo, hi) && d.power <= m && p(d) && d.Lo(m) == hi
    ensures Chain(p, m, pieces + [d], lo, d.Hi(m))
  {
    assert [d][1..] == [];
    TilesConcat(pieces, [d], lo, hi, d.Hi(m), m);
  }

  lemma {:induction false} ChainEnds(p: Predicate, m: nat, pieces: seq<DyadicInterval>, lo: int, hi: int)
    requires Chain(p, m, pieces, lo, hi)
    ensures pieces[0].power <= m && pieces[0].Lo(m) == lo
    ensures pieces[|pieces| - 1].power <= m && pieces[|pieces| - 1].Hi(m) == hi
    ensures lo < hi
    decreases |pieces|
  {
    WindowLength(pieces[0], m);
    if |pieces| > 1 {
      ChainEnds(p, m, pieces[1..], pieces[0].Hi(m), hi);
    } else {
      assert Tiles(pieces[1..], pieces[0].Hi(m), hi, m);
    }
  }

  lemma {:induction false} ChainAllGood(p: Predicate, m: nat, pieces: seq<DyadicInterval>, lo: int, hi: int)
    requires Coherent(p, m) && Chain(p, m, pieces, lo, hi)
    ensures AllGood(p, m, lo, hi)
    decreases |pieces|
  {
    var mid := pieces[0].Hi(m);
    assert AllGood(p, m, lo, mid) by {
      GrainsDecide(p, m, pieces[0]);
    }
    if |pieces| > 1 {
      ChainAllGood(p, m, pieces[1..], mid, hi);
      assert AllGood(p, m, lo, hi);
    } else {
      assert Tiles(pieces[1..], pieces[0].Hi(m), hi, m);
    }
  }

  /** Where the halving to the left starts: beyond a good neighbour that has another parent. */
  function LeftCandidate(p: Predicate, d: DyadicInterval): DyadicInterval {
    if d.Aligned() && p(d.Previous()) then d.Previous().Previous() else d.Previous()
  }

  lemma NeighbourWindows(d: DyadicInterval, m: nat)
    requires d.power <= m
    ensures d.Previous().Hi(m) == d.Lo(m) && d.Next().Lo(m) == d.Hi(m)
  {
  }

  lemma GrainDecided(p: Predicate, d: DyadicInterval, m: nat)
    requires d.power == m
    ensures GoodBefore(p, m, d.Hi(m)) <==> p(d)
    ensures Good(p, m, d.Lo(m)) <==> p(d)
  {
    ShiftZero(d.multiplier);
    ShiftZero(d.multiplier + 1);
  }

  /** No candidate of the unit interval to the right of k is accepted. */
  ghost predicate RejectedRightOf(p: Predicate, k: int, n: int) {
    forall j {:trigger DyadicInterval(j, n)} :: k < j && InUnit(DyadicInterval(j, n)) ==> !p(DyadicInterval(j, n))
  }

  /** No interval of the unit interval with a depth from 1 to n is accepted. */
  ghost predicate NoneAccepted(p: Predicate, n: int) {
    forall i :: 1 <= i <= n ==> RejectedRightOf(p, -1, i)
  }

  // ----- moving on to the next candidate -----

  lemma ComparesGrains(a: Dyadic, b: Dyadic, m: nat)
    requires a.power <= m && b.power <= m
    ensures StrictLess(a, b) <==> a.Scaled(m) < b.Scaled(m)
    ensures StrictGreater(a, b) <==> a.Scaled(m) > b.Scaled(m)
  {
    ComparatorsAreRationalOrder(a, b);
    ScaledOrder(a, b, m);
    ScaledOrder(b, a, m);
  }

  /** The candidate that holds a given end. */
  lemma RoundedWindow(d: Dyadic, n: int, m: nat)
    requires d.power <= m && n <= m
    ensures Rounded(d, n).Lo(m) <= d.Scaled(m) < Rounded(d, n).Hi(m)
  {
    var i := Rounded(d, n);
    RoundedHolds(d, n);
    ScaledOrder(d, i.IncludedEnd(), m);
    ScaledOrder(i.IncludedEnd(), d, m);
    ScaledOrder(d, i.ExcludedEnd(), m);
  }

  lemma LoMono(x: int, y: int, n: int, m: nat)
    requires n <= m
    ensures x <= y <==> DyadicInterval(x, n).Lo(m) <= DyadicInterval(y, n).Lo(m)
    ensures x < y <==> DyadicInterval(x, n).Hi(m) <= DyadicInterval(y, n).Lo(m)
    ensures x < y <==> DyadicInterval(x, n).Lo(m) < DyadicInterval(y, n).Lo(m)
  {
    ShiftMono(x, y, m - n);
    ShiftMono(x + 1, y, m - n);
  }

  predicate Skippable(p: Predicate, span: (int, int), d: DyadicInterval, m: nat) {
    CoversWindow(span, d, m) || !p(d)
  }

  /** Jumping over an inner run to the candidate that holds its start misses nothing of the unit
      interval. */
  lemma JumpMissesNothing(p: Predicate, m: nat, span: (int, int), inf: Dyadic, n: int, k: int, j: int)
    requires Coherent(p, m) && InnerRun(p, m, span.0, span.1)
    requires n <= m && inf.power <= m && inf.Scaled(m) == span.0
    requires DyadicInterval(k, n).Lo(m) <= span.1
    requires Rounded(inf, n).multiplier <= j < k && InUnit(DyadicInterval(j, n))
    ensures Skippable(p, span, DyadicInterval(j, n), m)
  {
    var d := DyadicInterval(j, n);
    RoundedWindow(inf, n, m);
    LoMono(j, k, n, m);
    LoMono(Rounded(inf, n).multiplier, j, n, m);
    if p(d) {
      WindowLength(d, m);
      RunAbsorbs(p, m, span.0, span.1, d);
    }
  }

  ghost predicate Settled(p: Predicate, spans: seq<(int, int)>, d: DyadicInterval, m: nat) {
    p(d) ==> Covered(spans, d, m)
  }

  lemma JumpsToStart(inf: Dyadic, n: int, k0: int, k: int, m: nat)
    requires n <= m && inf.power <= m
    requires k == if n < inf.power then Up(inf.multiplier, inf.power - n)
                  else if n > inf.power then Shift(inf.multiplier, n - inf.power)
                  else inf.multiplier
    requires DyadicInterval(k0, n).Lo(m) >= inf.Scaled(m)
    ensures k == Rounded(inf, n).multiplier && k <= k0
    ensures DyadicInterval(k - 1, n).Lo(m) < inf.Scaled(m)
  {
    ShiftZero(inf.multiplier);
    RoundedWindow(inf, n, m);
    LoMono(k, k0, n, m);
    LoMono(k - 1, k, n, m);
  }

  // ----- one find -----

  /** The old entries with a new one at position `at`, or with the entry there overwritten. */
  ghost predicate Recorded<T>(before: seq<T>, after: seq<T>, at: nat, entry: T, fresh_: bool) {
    && at <= |before|
    && if fresh_ then after == before[..at] + [entry] + before[at..]
       else at < |before| && after == before[at := entry]
  }

  /** After an insertion everything covered before is still covered. */
  lemma CoveredGrows(before: seq<(int, int)>, after: seq<(int, int)>, at: nat, span: (int, int), d: DyadicInterval,
                     m: nat)
    requires Recorded(before, after, at, span, true)
    ensures Covered(before, d, m) || CoversWindow(span, d, m) ==> Covered(after, d, m)
  {
    if CoversWindow(span, d, m) {
      assert after[at] == span;
    } else if Covered(before, d, m) {
      var i :| 0 <= i < |before| && CoversWindow(before[i], d, m);
      assert after[if i < at then i else i + 1] == before[i];
    }
  }

  /** A run that touches no recorded one keeps all runs apart. */
  lemma RunsGrow(p: Predicate, before: seq<(int, int)>, after: seq<(int, int)>, at: nat, span: (int, int), m: nat)
    requires Recorded(before, after, at, span, true) && Descending(after)
    requires AllRuns(p, m, before) && InnerRun(p, m, span.0, span.1)
    requires forall i :: 0 <= i < |before| ==> Apart(before[i], span)
    ensures AllRuns(p, m, after)
  {
    forall i | 0 <= i < |after|
      ensures InnerRun(p, m, after[i].0, after[i].1)
    {
      assert after[i] == if i == at then span else before[if i < at then i else i - 1];
    }
    forall i, j | 0 <= i < j < |after|
      ensures after[j].1 < after[i].0
    {
      StaysApart(p, m, before, after, at, span, i, j);
    }
  }

  lemma StaysApart(p: Predicate, m: nat, before: seq<(int, int)>, after: seq<(int, int)>, at: nat, span: (int, int),
                   i: nat, j: nat)
    requires Recorded(before, after, at, span, true) && Descending(after) && i < j < |after|
    requires AllRuns(p, m, before) && span.0 < span.1
    requires forall i :: 0 <= i < |before| ==> Apart(before[i], span)
    ensures after[j].1 < after[i].0
  {
    var a, b := if i < at then i else i - 1, if j < at then j else j - 1;
    assert after[i].1 > after[j].1;
    if i == at {
      assert Apart(before[b], span) && after[j] == before[b] && after[i] == span;
      assert InnerRun(p, m, before[b].0, before[b].1);
    } else if j == at {
      assert Apart(before[a], span) && after[i] == before[a] && after[j] == span;
      assert InnerRun(p, m, before[a].0, before[a].1);
    } else {
      assert after[i] == before[a] && after[j] == before[b];
    }
  }

  predicate Apart(a: (int, int), b: (int, int)) {
    a.1 < b.0 || b.1 < a.0
  }

  /** Every accepted interval of power n in the unit interval is inside some recorded run. */
  ghost predicate Done(p: Predicate, spans: seq<(int, int)>, n: int, m: nat) {
    DoneRightOf(p, spans, -1, n, m)
  }

  /** ... and so is every accepted one to the right of k. */
  ghost predicate DoneRightOf(p: Predicate, spans: seq<(int, int)>, k: int, n: int, m: nat) {
    forall j {:trigger Settled(p, spans, DyadicInterval(j, n), m)} :: k < j && InUnit(DyadicInterval(j, n)) ==>
        Settled(p, spans, DyadicInterval(j, n), m)
  }

  lemma NothingAtDepthZero(p: Predicate, m: nat)
    requires Searchable(p, m)
    ensures Done(p, [], 0, m)
  {
    forall j | InUnit(DyadicInterval(j, 0))
      ensures Settled(p, [], DyadicInterval(j, 0), m)
    {
      assert j == 0;
    }
  }

  /** A find next to which the search could have found something bigger in the unit interval would
      have been seen. */
  lemma FreshFindIsBlocked(p: Predicate, m: nat, spans: seq<(int, int)>, d: DyadicInterval)
    requires Coherent(p, m) && AllRuns(p, m, spans) && 1 <= d.power <= m && InUnit(d) && p(d)
    requires !Covered(spans, d, m)
    requires Done(p, spans, d.power - 1, m)
    requires DoneRightOf(p, spans, d.multiplier, d.power, m)
    ensures d.multiplier > 0 ==> !p(LeftCandidate(p, d))
    ensures InUnit(d.Next()) ==> !p(d.Next())
  {
    hide Coherent, AllRuns, DoneRightOf, Covered, LeftCandidate, InUnit;
    if InUnit(d.Next()) && p(d.Next()) {
      NextNotSettled(p, m, spans, d);
    }
    if d.multiplier > 0 && p(LeftCandidate(p, d)) {
      var parent := GoodParent(p, m, d);
      SettledHere(p, spans, -1, parent, m);
      TouchesCovered(p, m, spans, parent, d);
    }
  }

  lemma SettledHere(p: Predicate, spans: seq<(int, int)>, k: int, d: DyadicInterval, m: nat)
    requires DoneRightOf(p, spans, k, d.power, m) && k < d.multiplier && InUnit(d) && p(d)
    ensures Covered(spans, d, m)
  {
    assert DyadicInterval(d.multiplier, d.power) == d;
    assert Settled(p, spans, DyadicInterval(d.multiplier, d.power), m);
  }

  lemma NextNotSettled(p: Predicate, m: nat, spans: seq<(int, int)>, d: DyadicInterval)
    requires Coherent(p, m) && AllRuns(p, m, spans) && d.power <= m && InUnit(d) && p(d)
    requires DoneRightOf(p, spans, d.multiplier, d.power, m)
    requires InUnit(d.Next()) && p(d.Next())
    ensures Covered(spans, d, m)
  {
    hide Coherent, AllRuns;
    SettledHere(p, spans, d.multiplier, d.Next(), m);
    NeighbourWindows(d, m);
    WindowLength(d.Next(), m);
    WindowLength(d, m);
    hide Covered, InUnit;
    TouchesCovered(p, m, spans, d.Next(), d);
  }

  /** If the halving to the left started from an accepted interval, two halves of one parent
      would both be accepted. */
  lemma GoodParent(p: Predicate, m: nat, d: DyadicInterval) returns (parent: DyadicInterval)
    requires Coherent(p, m) && 1 <= d.power <= m && p(d) && p(LeftCandidate(p, d)) && InUnit(d) && d.multiplier > 0
    ensures parent.power == d.power - 1 && p(parent) && InUnit(parent)
    ensures parent.Lo(m) <= d.Hi(m) && d.Lo(m) <= parent.Hi(m)
  {
    AlignedIsEven(d);
    parent := DyadicInterval((d.multiplier - 1) / 2, d.power - 1);
    ParentTouches(d, parent, m);
    ParentInUnit(d);
    hide InUnit, DyadicInterval.Aligned;
    assert Splits(p, parent);
  }

  lemma ParentInUnit(d: DyadicInterval)
    requires InUnit(d) && d.power >= 1 && d.multiplier > 0
    ensures InUnit(DyadicInterval((d.multiplier - 1) / 2, d.power - 1))
  {
    assert Pow2(d.power) == 2 * Pow2(d.power - 1);
  }

  lemma ParentTouches(d: DyadicInterval, parent: DyadicInterval, m: nat)
    requires d.power <= m && parent == DyadicInterval((d.multiplier - 1) / 2, d.power - 1)
    ensures parent.Lo(m) <= d.Hi(m) && d.Lo(m) <= parent.Hi(m)
    ensures d.multiplier % 2 == 0 ==>
              parent.RightHalf() == d.Previous() && parent.LeftHalf() == d.Previous().Previous()
    ensures d.multiplier % 2 != 0 ==> parent.RightHalf() == d && parent.LeftHalf() == d.Previous()
  {
    HalfWindows(parent, m);
    WindowLength(d, m);
    NeighbourWindows(d, m);
  }

  /** What touches a covered interval and is accepted is covered too. */
  lemma TouchesCovered(p: Predicate, m: nat, spans: seq<(int, int)>, c: DyadicInterval, d: DyadicInterval)
    requires Coherent(p, m) && AllRuns(p, m, spans) && d.power <= m && p(d) && InUnit(d)
    requires Covered(spans, c, m)
    requires c.Lo(m) <= d.Hi(m) && d.Lo(m) <= c.Hi(m)
    ensures Covered(spans, d, m)
  {
    var i :| 0 <= i < |spans| && CoversWindow(spans[i], c, m);
    RunAbsorbs(p, m, spans[i].0, spans[i].1, d);
    assert CoversWindow(spans[i], d, m);
  }

  /** A run that covers something new of the unit interval touches none of the recorded ones. */
  lemma FreshRunIsNew(p: Predicate, m: nat, spans: seq<(int, int)>, span: (int, int), d: DyadicInterval)
    requires AllRuns(p, m, spans) && InnerRun(p, m, span.0, span.1) && InUnit(d)
    requires CoversWindow(span, d, m) && !Covered(spans, d, m)
    ensures forall i :: 0 <= i < |spans| ==> Apart(spans[i], span)
  {
    UnitWindow(d, m);
    forall i | 0 <= i < |spans|
      ensures Apart(spans[i], span)
    {
      var t := spans[i];
      assert !CoversWindow(t, d, m);
      assert t.0 > d.Lo(m) && t.0 <= span.1 ==> Good(p, m, t.0 - 1);
      assert t.1 < d.Hi(m) && t.1 >= span.0 ==> Good(p, m, t.1);
    }
  }

  // ----- staying inside -----

  /** Every span shares a grain with the unit interval. */
  ghost predicate MeetUnit(spans: seq<(int, int)>, m: nat) {
    forall i :: 0 <= i < |spans| ==> spans[i].0 < Pow2(m) && 0 < spans[i].1
  }

  lemma FoundMeetsUnit(before: seq<(int, int)>, after: seq<(int, int)>, at: nat, span: (int, int), fresh_: bool,
                       d: DyadicInterval, m: nat)
    requires MeetUnit(before, m) && Recorded(before, after, at, span, fresh_) && CoversWindow(span, d, m)
    requires InUnit(d) && d.power <= m
    ensures MeetUnit(after, m)
  {
    UnitWindow(d, m);
  }

  /** A span leaves the unit interval only where the grains on both sides of an end of it are good. */
  ghost predicate LeavesThroughEdges(p: Predicate, m: nat, span: (int, int)) {
    && (span.0 < 0 ==> Good(p, m, -1) && Good(p, m, 0))
    && (span.1 > Pow2(m) ==> Good(p, m, Pow2(m) - 1) && Good(p, m, Pow2(m)))
  }

  /** A chain of accepted pieces that shares a grain with the unit interval can only leave it where the
      grains on both sides of its end are good. */
  lemma LeavesOnlyThrough(p: Predicate, m: nat, pieces: seq<DyadicInterval>, span: (int, int))
    requires Coherent(p, m) && Chain(p, m, pieces, span.0, span.1) && span.0 < Pow2(m) && 0 < span.1
    ensures LeavesThroughEdges(p, m, span)
  {
    ChainAllGood(p, m, pieces, span.0, span.1);
  }

  /** What of a span lies in the unit interval. */
  function Clip(span: (int, int), m: nat): (int, int) {
    (if span.0 < 0 then 0 else span.0, if span.1 > Pow2(m) then Pow2(m) else span.1)
  }

  function Clips(spans: seq<(int, int)>, m: nat): seq<(int, int)> {
    seq(|spans|, i requires 0 <= i < |spans| => Clip(spans[i], m))
  }

  /** Once the finest depth is done the recorded spans are, in the unit interval, exactly its
      maximal runs. */
  lemma SpansAreRuns(p: Predicate, m: nat, spans: seq<(int, int)>, a: int, b: int)
    requires AllRuns(p, m, spans) && MeetUnit(spans, m) && Done(p, spans, m, m)
    ensures UnitRun(p, m, a, b) <==> (a, b) in Clips(spans, m)
  {
    forall i | 0 <= i < |spans|
      ensures UnitRun(p, m, Clips(spans, m)[i].0, Clips(spans, m)[i].1)
    {
      assert InnerRun(p, m, spans[i].0, spans[i].1);
    }
    if UnitRun(p, m, a, b) {
      var d := DyadicInterval(a, m);
      assert Good(p, m, a) && InUnit(d);
      assert Settled(p, spans, d, m);
      var i :| 0 <= i < |spans| && CoversWindow(spans[i], d, m);
      ShiftZero(a);
      ShiftZero(a + 1);
      RunsApart(p, m, a, b, Clips(spans, m)[i].0, Clips(spans, m)[i].1);
      assert Clips(spans, m)[i] == (a, b);
    }
  }

  /** Every accepted interval of the unit interval lies in a recorded span, however long it is. */
  lemma AcceptedIsCovered(p: Predicate, m: nat, spans: seq<(int, int)>, d: DyadicInterval)
    requires Coherent(p, m) && AllRuns(p, m, spans) && Done(p, spans, m, m)
    requires InUnit(d) && d.power <= m && p(d)
    ensures Covered(spans, d, m)
  {
    UnitWindow(d, m);
    GrainsDecide(p, m, d);
    var x := d.Lo(m);
    assert Good(p, m, x) && InUnit(DyadicInterval(x, m));
    assert Settled(p, spans, DyadicInterval(x, m), m);
    var i :| 0 <= i < |spans| && CoversWindow(spans[i], DyadicInterval(x, m), m);
    ShiftZero(x);
    ShiftZero(x + 1);
    RunAbsorbs(p, m, spans[i].0, spans[i].1, d);
    assert CoversWindow(spans[i], d, m);
  }

  /** For a predicate that accepts nothing outside the unit interval nothing has to be cut off. */
  lemma ConfinedRuns(p: Predicate, m: nat, spans: seq<(int, int)>)
    requires Confined(p, m) && AllRuns(p, m, spans)
    ensures Clips(spans, m) == spans
    ensures forall a, b :: UnitRun(p, m, a, b) <==> Run(p, m, a, b)
  {
    forall i | 0 <= i < |spans|
      ensures Clip(spans[i], m) == spans[i]
    {
      InnerRunConfined(p, m, spans[i].0, spans[i].1);
    }
    forall a, b
      ensures UnitRun(p, m, a, b) <==> Run(p, m, a, b)
    {
      if UnitRun(p, m, a, b) || Run(p, m, a, b) {
        InnerRunConfined(p, m, a, b);
      }
    }
  }

  lemma InnerRunConfined(p: Predicate, m: nat, a: int, b: int)
    requires Confined(p, m) && InnerRun(p, m, a, b)
    ensures 0 <= a && b <= Pow2(m) && Run(p, m, a, b)
  {
    assert Good(p, m, a) && Good(p, m, b - 1);
  }

  /** The two ends of a span of grains as numbers. */
  function EndsOf(span: (int, int), m: nat): (real, real) {
    (Dyadic(span.0, m).Real(), Dyadic(span.1, m).Real())
  }

  lemma SpansAreEnds(s: Seen, m: nat, span: (int, int))
    requires s.Spans(m, span)
    ensures (s.inf.Real(), s.sup.Real()) == EndsOf(span, m)
  {
    RealShift(s.inf.multiplier, s.inf.power, m - s.inf.power);
    RealShift(s.sup.multiplier, s.sup.power, m - s.sup.power);
  }

  /** The seen map and its two descriptions agree. */
  ghost predicate Matches(p: Predicate, m: nat, seen: seq<Seen>, spans: seq<(int, int)>,
                          finds: seq<seq<DyadicInterval>>) {
    && |seen| == |spans| == |finds|
    && Descending(spans)
    && (forall i :: 0 <= i < |seen| ==> seen[i].Spans(m, spans[i]))
    && (forall i :: 0 <= i < |seen| ==> Chain(p, m, finds[i], spans[i].0, spans[i].1))
  }

  lemma RecordKeepsMatch(p: Predicate, m: nat, seen: seq<Seen>, spans: seq<(int, int)>, finds: seq<seq<DyadicInterval>>,
                         at: nat, entry: Seen, span: (int, int), find: seq<DyadicInterval>)
    requires Matches(p, m, seen, spans, finds) && at <= |seen|
    requires entry.Spans(m, span) && Chain(p, m, find, span.0, span.1)
    requires forall j :: 0 <= j < at ==> spans[j].1 > span.1
    ensures (at < |spans| ==> span.1 > spans[at].1) ==>
              Matches(p, m, seen[..at] + [entry] + seen[at..], spans[..at] + [span] + spans[at..], finds[..at]
                      + [find] + finds[at..])
    ensures at < |spans| && span.1 == spans[at].1 ==>
              Matches(p, m, seen[at := entry], spans[at := span], finds[at := find])
  {
  }

  predicate SameLast(a: seq<DyadicInterval>, b: seq<DyadicInterval>) {
    a != [] && b != [] && a[|a| - 1] == b[|b| - 1]
  }
}
