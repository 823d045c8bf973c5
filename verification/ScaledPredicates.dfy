/** The map between the unit interval and the interval that is searched, and what the search finds
    in the caller's own coordinates. */
module ScaledPredicates {
  import opened Powers
  import opened Dyadics
  import opened DyadicIntervals
  import opened Dissection
  import opened SegmentRuns
  import opened SearchProgress

  /** The caller's predicate, asked for an interval by its two ends. */
  type Holds = (real, real) -> bool

  function Unscale(interval: (real, real), shift: real, scale: real): (real, real) {
    (UnscaleAt(interval.0, shift, scale), UnscaleAt(interval.1, shift, scale))
  }

  function UnscaleAt(x: real, shift: real, scale: real): real {
    x * scale + shift
  }

  /** The intervals the caller's predicate sees: those of the unit interval mapped onto [a, b). */
  function ScaledPredicate(holds: Holds, shift: real, scale: real): Predicate {
    (d: DyadicInterval) =>
      var at := Unscale((d.IncludedEnd().Real(), d.ExcludedEnd().Real()), shift, scale);
      holds(at.0, at.1)
  }

  // ----- the equal parts of [a, b) -----

  /** Where the x-th of the 2^m equal parts of [a, b) starts. */
  function PartStart(a: real, b: real, m: nat, x: int): real {
    a + (x as real) * PartLength(a, b, m)
  }

  function PartLength(a: real, b: real, m: nat): real {
    (b - a) / (Pow2(m) as real)
  }

  function Parts(a: real, b: real, m: nat, span: (int, int)): (real, real) {
    (PartStart(a, b, m, span.0), PartStart(a, b, m, span.1))
  }

  lemma EqualParts(a: real, b: real, m: nat, x: int)
    requires a < b
    ensures PartStart(a, b, m, 0) == a && PartStart(a, b, m, Pow2(m)) == b
    ensures PartStart(a, b, m, x + 1) == PartStart(a, b, m, x) + PartLength(a, b, m) && PartLength(a, b, m) > 0.0
  {
    var l, n := PartLength(a, b, m), Pow2(m) as real;
    assert n * l == b - a;
    assert ((x + 1) as real) * l == (x as real) * l + l;
  }

  lemma PartOrder(a: real, b: real, m: nat, x: int, y: int)
    requires a < b
    ensures x < y <==> PartStart(a, b, m, x) < PartStart(a, b, m, y)
    ensures x == y <==> PartStart(a, b, m, x) == PartStart(a, b, m, y)
  {
    hide PartStart;
    if x < y {
      PartBefore(a, b, m, x, y);
    } else if y < x {
      PartBefore(a, b, m, y, x);
    }
  }

  lemma PartBefore(a: real, b: real, m: nat, x: int, y: int)
    requires a < b && x < y
    ensures PartStart(a, b, m, x) < PartStart(a, b, m, y)
  {
    EqualParts(a, b, m, x);
    ScaleLess(x as real, y as real, PartLength(a, b, m));
  }

  /** Scaling back takes spans of grains to the same spans of parts. */
  lemma UnscaledSpan(a: real, b: real, m: nat, span: (int, int))
    ensures Unscale(EndsOf(span, m), a, b - a) == Parts(a, b, m, span)
  {
    hide PartStart, UnscaleAt;
    ScaledPlace(a, b, m, span.0);
    ScaledPlace(a, b, m, span.1);
  }

  lemma ScaledPlace(a: real, b: real, m: nat, x: int)
    ensures UnscaleAt(Dyadic(x, m).Real(), a, b - a) == PartStart(a, b, m, x)
  {
    var n: int := m;
    var p, k := RealPow2(-n), x as real;
    assert p == 1.0 / (Pow2(m) as real) by {
      assert m == 0 ==> Pow2(0) == 1;
    }
    var w := b - a;
    assert p * w == w / (Pow2(m) as real);
    assert (k * p) * w == k * (p * w);
  }

  /** The scaled predicate asks the caller's about the same span of parts. */
  lemma ScaledAsks(holds: Holds, a: real, b: real, m: nat, d: DyadicInterval)
    requires d.power <= m
    ensures ScaledPredicate(holds, a, b - a)(d) == HoldsOn(holds, a, b, m, (d.Lo(m), d.Hi(m)))
  {
    WindowReal(d, m);
    UnscaledSpan(a, b, m, (d.Lo(m), d.Hi(m)));
  }

  predicate HoldsOn(holds: Holds, a: real, b: real, m: nat, span: (int, int)) {
    var at := Parts(a, b, m, span);
    holds(at.0, at.1)
  }

  predicate PartHolds(holds: Holds, a: real, b: real, m: nat, x: int) {
    HoldsOn(holds, a, b, m, (x, x + 1))
  }

  lemma PartHoldsIsGood(holds: Holds, a: real, b: real, m: nat, x: int)
    ensures PartHolds(holds, a, b, m, x) <==> Good(ScaledPredicate(holds, a, b - a), m, x)
  {
    ShiftZero(x);
    ShiftZero(x + 1);
    ScaledAsks(holds, a, b, m, DyadicInterval(x, m));
  }

  // ----- what the caller may assume -----

  ghost predicate HalvesDecideAt(holds: Holds, a: real, b: real, m: nat, d: DyadicInterval)
    requires d.power < m
  {
    HoldsOn(holds, a, b, m, (d.Lo(m), d.Hi(m))) <==>
    HoldsOn(holds, a, b, m, (d.LeftHalf().Lo(m), d.LeftHalf().Hi(m)))
    && HoldsOn(holds, a, b, m, (d.RightHalf().Lo(m), d.RightHalf().Hi(m)))
  }

  /** The predicate holds on a dyadic span of parts when it holds on both halves of it. */
  ghost predicate HalvesDecide(holds: Holds, a: real, b: real, m: nat) {
    forall d: DyadicInterval :: d.power < m ==> HalvesDecideAt(holds, a, b, m, d)
  }

  ghost predicate PartsDecideAt(holds: Holds, a: real, b: real, m: nat, x: int, y: int) {
    HoldsOn(holds, a, b, m, (x, y)) <==> forall z :: x <= z < y ==> PartHolds(holds, a, b, m, z)
  }

  /** It is about the set of parts on which it holds. */
  ghost predicate PartsDecide(holds: Holds, a: real, b: real, m: nat) {
    forall x, y :: x < y ==> PartsDecideAt(holds, a, b, m, x, y)
  }

  lemma PartsDecideHalves(holds: Holds, a: real, b: real, m: nat)
    requires PartsDecide(holds, a, b, m)
    ensures HalvesDecide(holds, a, b, m)
  {
    hide PartsDecideAt, HoldsOn, PartHolds;
    forall d: DyadicInterval | d.power < m
      ensures HalvesDecideAt(holds, a, b, m, d)
    {
      PartsDecideHalf(holds, a, b, m, d);
    }
  }

  lemma PartsDecideHalf(holds: Holds, a: real, b: real, m: nat, d: DyadicInterval)
    requires PartsDecide(holds, a, b, m) && d.power < m
    ensures HalvesDecideAt(holds, a, b, m, d)
  {
    hide HoldsOn, PartHolds;
    HalfWindows(d, m);
    var x, y, z := d.Lo(m), d.LeftHalf().Hi(m), d.Hi(m);
    assert PartsDecideAt(holds, a, b, m, x, y) && PartsDecideAt(holds, a, b, m, y, z);
    assert PartsDecideAt(holds, a, b, m, x, z);
  }

  lemma DecidedIsCoherent(holds: Holds, a: real, b: real, m: nat)
    ensures HalvesDecide(holds, a, b, m) <==> Coherent(ScaledPredicate(holds, a, b - a), m)
  {
    hide ScaledPredicate, HoldsOn;
    var p := ScaledPredicate(holds, a, b - a);
    forall d: DyadicInterval | d.power < m
      ensures HalvesDecideAt(holds, a, b, m, d) <==> Splits(p, d)
    {
      ScaledAsks(holds, a, b, m, d);
      ScaledAsks(holds, a, b, m, d.LeftHalf());
      ScaledAsks(holds, a, b, m, d.RightHalf());
    }
  }

  /** The unit interval goes to the interval itself. */
  lemma WholeIsRefused(holds: Holds, a: real, b: real)
    requires a < b && !holds(a, b)
    ensures !ScaledPredicate(holds, a, b - a)(DyadicInterval(0, 0))
  {
    ScaledAsks(holds, a, b, 0, DyadicInterval(0, 0));
    ShiftZero(0);
    ShiftZero(1);
    EqualParts(a, b, 0, 0);
    assert Pow2(0) == 1;
  }

  /** No dyadic span of parts of [a, b), from the halves down to the parts, is accepted. */
  ghost predicate HoldsNowhere(holds: Holds, a: real, b: real, m: nat) {
    forall d: DyadicInterval :: InUnit(d) && 1 <= d.power <= m ==> !HoldsOn(holds, a, b, m, (d.Lo(m), d.Hi(m)))
  }

  lemma NowhereIsNone(holds: Holds, a: real, b: real, m: nat)
    ensures HoldsNowhere(holds, a, b, m) <==> NoneAccepted(ScaledPredicate(holds, a, b - a), m)
  {
    hide HoldsOn, ScaledPredicate;
    var p := ScaledPredicate(holds, a, b - a);
    forall d: DyadicInterval | InUnit(d) && 1 <= d.power <= m
      ensures HoldsOn(holds, a, b, m, (d.Lo(m), d.Hi(m))) <==> p(d)
    {
      ScaledAsks(holds, a, b, m, d);
    }
    if NoneAccepted(p, m) {
      forall d: DyadicInterval | InUnit(d) && 1 <= d.power <= m
        ensures !p(d)
      {
        assert RejectedRightOf(p, -1, d.power);
        assert d == DyadicInterval(d.multiplier, d.power);
      }
    }
  }

  // ----- what the search finds -----

  /** The parts from x up to y are a maximal run of parts of [a, b) on which the predicate holds. */
  ghost predicate PartRun(holds: Holds, a: real, b: real, m: nat, x: int, y: int) {
    && 0 <= x < y <= Pow2(m)
    && (forall z :: x <= z < y ==> PartHolds(holds, a, b, m, z))
    && (x > 0 ==> !PartHolds(holds, a, b, m, x - 1))
    && (y < Pow2(m) ==> !PartHolds(holds, a, b, m, y))
  }

  /** What of a result lies in [a, b). */
  function CutTo(r: (real, real), a: real, b: real): (real, real) {
    (if r.0 < a then a else r.0, if r.1 > b then b else r.1)
  }

  ghost predicate IsFound(found: seq<(real, real)>, a: real, b: real, r: (real, real)) {
    exists i :: 0 <= i < |found| && CutTo(found[i], a, b) == r
  }

  ghost predicate IsPartRun(holds: Holds, a: real, b: real, m: nat, r: (real, real)) {
    exists x, y :: PartRun(holds, a, b, m, x, y) && r == Parts(a, b, m, (x, y))
  }

  /** In [a, b) the results are exactly the maximal runs of parts on which the predicate holds, from
      left to right, and no two results touch. */
  ghost predicate FoundRuns(holds: Holds, a: real, b: real, m: nat, found: seq<(real, real)>) {
    && (forall r :: IsFound(found, a, b, r) <==> IsPartRun(holds, a, b, m, r))
    && (forall i, j :: 0 <= i < j < |found| ==> found[i].1 < found[j].0)
  }

  /** The results as spans of parts, listed from the right. */
  ghost predicate FoundAs(found: seq<(real, real)>, a: real, b: real, m: nat, spans: seq<(int, int)>) {
    |found| == |spans| && forall i :: 0 <= i < |spans| ==> found[|spans| - 1 - i] == Parts(a, b, m, spans[i])
  }

  lemma PartRunIsUnitRun(holds: Holds, a: real, b: real, m: nat, x: int, y: int)
    ensures PartRun(holds, a, b, m, x, y) <==> UnitRun(ScaledPredicate(holds, a, b - a), m, x, y)
  {
    hide PartHolds, Good, ScaledPredicate;
    var p := ScaledPredicate(holds, a, b - a);
    forall z
      ensures PartHolds(holds, a, b, m, z) <==> Good(p, m, z)
    {
      PartHoldsIsGood(holds, a, b, m, z);
    }
  }

  lemma CutIsClip(a: real, b: real, m: nat, span: (int, int))
    requires a < b
    ensures CutTo(Parts(a, b, m, span), a, b) == Parts(a, b, m, Clip(span, m))
  {
    hide PartStart;
    EqualParts(a, b, m, 0);
    PartOrder(a, b, m, span.0, 0);
    PartOrder(a, b, m, Pow2(m), span.1);
  }

  lemma FoundFromSpans(holds: Holds, a: real, b: real, m: nat, spans: seq<(int, int)>, found: seq<(real, real)>)
    requires a < b && FoundAs(found, a, b, m, spans)
    requires ExactRuns(ScaledPredicate(holds, a, b - a), m, spans)
    ensures FoundRuns(holds, a, b, m, found)
  {
    hide PartRun, UnitRun, Parts, PartStart, CutTo, ScaledPredicate;
    var n := |spans|;
    forall r
      ensures IsFound(found, a, b, r) <==> IsPartRun(holds, a, b, m, r)
    {
      if IsFound(found, a, b, r) {
        var i :| 0 <= i < n && CutTo(found[i], a, b) == r;
        FoundIsRun(holds, a, b, m, spans, found, i);
      }
      if IsPartRun(holds, a, b, m, r) {
        var x, y :| PartRun(holds, a, b, m, x, y) && r == Parts(a, b, m, (x, y));
        RunIsFound(holds, a, b, m, spans, found, x, y);
      }
    }
    forall i, j | 0 <= i < j < n
      ensures found[i].1 < found[j].0
    {
      FoundInOrder(holds, a, b, m, spans, found, i, j);
    }
  }

  lemma FoundIsRun(holds: Holds, a: real, b: real, m: nat, spans: seq<(int, int)>, found: seq<(real, real)>, i: nat)
    requires a < b && FoundAs(found, a, b, m, spans) && i < |found|
    requires ExactRuns(ScaledPredicate(holds, a, b - a), m, spans)
    ensures IsPartRun(holds, a, b, m, CutTo(found[i], a, b))
  {
    hide PartRun, UnitRun, Parts, CutTo, ScaledPredicate;
    var k := |spans| - 1 - i;
    assert found[|spans| - 1 - k] == Parts(a, b, m, spans[k]);
    var clip := Clips(spans, m)[k];
    assert (clip.0, clip.1) in Clips(spans, m);
    CutIsClip(a, b, m, spans[k]);
    PartRunIsUnitRun(holds, a, b, m, clip.0, clip.1);
    assert PartRun(holds, a, b, m, clip.0, clip.1);
  }

  lemma RunIsFound(holds: Holds, a: real, b: real, m: nat, spans: seq<(int, int)>, found: seq<(real, real)>, x: int,
                   y: int)
    requires a < b && FoundAs(found, a, b, m, spans)
    requires ExactRuns(ScaledPredicate(holds, a, b - a), m, spans) && PartRun(holds, a, b, m, x, y)
    ensures IsFound(found, a, b, Parts(a, b, m, (x, y)))
  {
    hide PartRun, UnitRun, Parts, CutTo, ScaledPredicate;
    PartRunIsUnitRun(holds, a, b, m, x, y);
    assert (x, y) in Clips(spans, m);
    var k :| 0 <= k < |spans| && Clips(spans, m)[k] == (x, y);
    CutIsClip(a, b, m, spans[k]);
    assert CutTo(found[|spans| - 1 - k], a, b) == Parts(a, b, m, (x, y));
  }

  lemma FoundInOrder(holds: Holds, a: real, b: real, m: nat, spans: seq<(int, int)>, found: seq<(real, real)>,
                     i: nat, j: nat)
    requires a < b && FoundAs(found, a, b, m, spans) && i < j < |found|
    requires ExactRuns(ScaledPredicate(holds, a, b - a), m, spans)
    ensures found[i].1 < found[j].0
  {
    hide PartStart, ScaledPredicate;
    var k, l := |spans| - 1 - i, |spans| - 1 - j;
    assert found[|spans| - 1 - k] == Parts(a, b, m, spans[k]);
    assert found[|spans| - 1 - l] == Parts(a, b, m, spans[l]);
    assert spans[k].1 < spans[l].0;
    PartOrder(a, b, m, spans[k].1, spans[l].0);
  }

  // ----- any predicate -----

  /** Adjacent intervals from one cut to the next, with the predicate holding on each. */
  ghost predicate HeldCuts(holds: Holds, cuts: seq<real>, r: (real, real)) {
    && |cuts| > 1 && cuts[0] == r.0 && cuts[|cuts| - 1] == r.1
    && forall i :: 0 < i < |cuts| ==> cuts[i - 1] < cuts[i] && holds(cuts[i - 1], cuts[i])
  }

  ghost predicate PutTogether(holds: Holds, r: (real, real)) {
    exists cuts :: HeldCuts(holds, cuts, r)
  }

  lemma {:induction false} ChainCuts(holds: Holds, a: real, b: real, m: nat, pieces: seq<DyadicInterval>, lo: int,
                                     hi: int)
    returns (cuts: seq<real>)
    requires a < b && Chain(ScaledPredicate(holds, a, b - a), m, pieces, lo, hi)
    ensures HeldCuts(holds, cuts, Parts(a, b, m, (lo, hi)))
    decreases |pieces|
  {
    hide PartStart, ScaledPredicate;
    var d := pieces[0];
    ScaledAsks(holds, a, b, m, d);
    WindowLength(d, m);
    PartOrder(a, b, m, lo, d.Hi(m));
    if |pieces| == 1 {
      assert Tiles(pieces[1..], d.Hi(m), hi, m);
      cuts := [PartStart(a, b, m, lo), PartStart(a, b, m, hi)];
    } else {
      var rest := ChainCuts(holds, a, b, m, pieces[1..], d.Hi(m), hi);
      cuts := [PartStart(a, b, m, lo)] + rest;
      forall i | 0 < i < |cuts|
        ensures cuts[i - 1] < cuts[i] && holds(cuts[i - 1], cuts[i])
      {
        assert i > 1 ==> cuts[i - 1] == rest[i - 2] && cuts[i] == rest[i - 1];
      }
    }
  }

  lemma AllPutTogether(holds: Holds, a: real, b: real, m: nat, seen: seq<Seen>, spans: seq<(int, int)>,
                       finds: seq<seq<DyadicInterval>>, found: seq<(real, real)>)
    requires a < b && FoundAs(found, a, b, m, spans)
    requires Matches(ScaledPredicate(holds, a, b - a), m, seen, spans, finds)
    ensures forall i :: 0 <= i < |found| ==> PutTogether(holds, found[i])
  {
    hide Chain, Parts, ScaledPredicate, HeldCuts;
    forall i | 0 <= i < |found|
      ensures PutTogether(holds, found[i])
    {
      var k := |spans| - 1 - i;
      assert found[|spans| - 1 - k] == Parts(a, b, m, spans[k]);
      var cuts := ChainCuts(holds, a, b, m, finds[k], spans[k].0, spans[k].1);
      assert spans[k] == (spans[k].0, spans[k].1);
    }
  }

  /** The predicate holds only inside [a, b). */
  ghost predicate Within(holds: Holds, a: real, b: real) {
    forall x, y :: x < y && holds(x, y) ==> a <= x && y <= b
  }

  lemma PutTogetherInside(holds: Holds, a: real, b: real, r: (real, real))
    requires Within(holds, a, b) && PutTogether(holds, r)
    ensures a <= r.0 && r.1 <= b && CutTo(r, a, b) == r
  {
    var cuts :| HeldCuts(holds, cuts, r);
    assert holds(cuts[0], cuts[1]) && holds(cuts[|cuts| - 2], cuts[|cuts| - 1]);
  }

  /** A result leaves [a, b) only where the predicate holds on the parts on both sides of the end. */
  ghost predicate LeavesThroughEnds(holds: Holds, a: real, b: real, m: nat, r: (real, real)) {
    && (r.0 < a ==> PartHolds(holds, a, b, m, -1) && PartHolds(holds, a, b, m, 0))
    && (r.1 > b ==> PartHolds(holds, a, b, m, Pow2(m) - 1) && PartHolds(holds, a, b, m, Pow2(m)))
  }

  lemma EdgesAreEnds(holds: Holds, a: real, b: real, m: nat, span: (int, int))
    requires a < b && LeavesThroughEdges(ScaledPredicate(holds, a, b - a), m, span)
    ensures LeavesThroughEnds(holds, a, b, m, Parts(a, b, m, span))
  {
    hide PartStart, PartHolds, Good, ScaledPredicate;
    EqualParts(a, b, m, 0);
    PartOrder(a, b, m, span.0, 0);
    PartOrder(a, b, m, Pow2(m), span.1);
    PartHoldsIsGood(holds, a, b, m, -1);
    PartHoldsIsGood(holds, a, b, m, 0);
    PartHoldsIsGood(holds, a, b, m, Pow2(m) - 1);
    PartHoldsIsGood(holds, a, b, m, Pow2(m));
  }
}
