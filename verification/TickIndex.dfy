/** The compressed dyadic tree behind a tick stream: which dyadic intervals it has to hold and
    what it has to hold for them. */
module TickIndex {
  import opened Wrappers
  import opened Powers
  import opened Dyadics
  import opened DyadicIntervals
  import opened Timeline

  /** The finest dyadic interval above the grains a and b of power n. */
  function Lca(a: int, b: int, n: int): DyadicInterval
    requires SameSide(a, b)
    decreases Abs(a) + Abs(b)
  {
    if a == b then DyadicInterval(a, n) else Lca(a / 2, b / 2, n - 1)
  }

  lemma {:induction false} LcaIsUp(a: int, b: int, n: int) returns (j: nat)
    requires SameSide(a, b)
    ensures Lca(a, b, n) == DyadicInterval(Up(a, j), n - j) && Up(a, j) == Up(b, j)
    ensures forall i: nat :: i < j ==> Up(a, i) != Up(b, i)
    decreases Abs(a) + Abs(b)
  {
    if a == b {
      j := 0;
    } else {
      var k := LcaIsUp(a / 2, b / 2, n - 1);
      j := k + 1;
      forall i: nat | i < j
        ensures Up(a, i) != Up(b, i)
      {
        if i > 0 {
          UpStep(a, i - 1);
          UpStep(b, i - 1);
        }
      }
    }
  }

  lemma LcaContains(a: int, b: int, n: int)
    requires SameSide(a, b)
    ensures Lca(a, b, n).ContainsDyadic(DyadicInterval(a, n))
    ensures Lca(a, b, n).ContainsDyadic(DyadicInterval(b, n))
    ensures Lca(a, b, n).power <= n
  {
    var j := LcaIsUp(a, b, n);
    ContainsIsUp(Lca(a, b, n), DyadicInterval(a, n));
    ContainsIsUp(Lca(a, b, n), DyadicInterval(b, n));
  }

  /** No finer dyadic interval holds both grains. */
  lemma LcaIsFinest(a: int, b: int, n: int, d: DyadicInterval)
    requires SameSide(a, b)
    requires d.ContainsDyadic(DyadicInterval(a, n)) && d.ContainsDyadic(DyadicInterval(b, n))
    ensures d.ContainsDyadic(Lca(a, b, n))
  {
    var j := LcaIsUp(a, b, n);
    ContainsIsUp(d, DyadicInterval(a, n));
    ContainsIsUp(d, DyadicInterval(b, n));
    var i := n - d.power;
    assert i >= j;
    UpAdd(a, j, i - j);
    ContainsIsUp(d, Lca(a, b, n));
  }

  /** Two different grains lie in different halves. */
  lemma LcaSeparates(a: int, b: int, n: int)
    requires SameSide(a, b) && a < b
    ensures Lca(a, b, n).power < n
    ensures Lca(a, b, n).LeftHalf().ContainsDyadic(DyadicInterval(a, n))
    ensures Lca(a, b, n).RightHalf().ContainsDyadic(DyadicInterval(b, n))
  {
    var j := LcaIsUp(a, b, n);
    assert Up(a, 0) == a && Up(b, 0) == b;
    UpStep(a, j - 1);
    UpStep(b, j - 1);
    UpMono(a, b, j - 1);
    ContainsIsUp(Lca(a, b, n).LeftHalf(), DyadicInterval(a, n));
    ContainsIsUp(Lca(a, b, n).RightHalf(), DyadicInterval(b, n));
  }

  // ----- events -----

  function GrainOf(t: real, res: int): DyadicInterval {
    DyadicInterval(FloorAt(t, res), res)
  }

  /** The times are starts of grains, in order. */
  ghost predicate Granular(times: seq<real>, res: int) {
    Increasing(times) && forall i :: 0 <= i < |times| ==> times[i] == GrainOf(times[i], res).IncludedEnd().Real()
  }

  predicate EventIn(t: real, d: DyadicInterval) {
    d.IncludedEnd().Real() <= t < d.ExcludedEnd().Real()
  }

  ghost predicate HasEvent(times: seq<real>, d: DyadicInterval) {
    exists i :: 0 <= i < |times| && EventIn(times[i], d)
  }

  /** The half-open range of the indices whose times lie in d. */
  function First(times: seq<real>, d: DyadicInterval): nat {
    LowerBound(times, d.IncludedEnd().Real())
  }

  function Beyond(times: seq<real>, d: DyadicInterval): nat {
    LowerBound(times, d.ExcludedEnd().Real())
  }

  lemma EventRange(times: seq<real>, d: DyadicInterval)
    requires Increasing(times)
    ensures First(times, d) <= Beyond(times, d)
    ensures forall i :: 0 <= i < |times| ==> (EventIn(times[i], d) <==> First(times, d) <= i < Beyond(times, d))
    ensures HasEvent(times, d) <==> First(times, d) < Beyond(times, d)
  {
    RealOrderAtPower(d.multiplier, d.multiplier + 1, d.power);
    LowerBoundsOrdered(times, d.IncludedEnd().Real(), d.ExcludedEnd().Real());
    LowerBoundSeparates(times, d.IncludedEnd().Real());
    LowerBoundSeparates(times, d.ExcludedEnd().Real());
    if First(times, d) < Beyond(times, d) {
      assert EventIn(times[First(times, d)], d);
    }
  }

  lemma SideOfReal(k: int, n: int)
    ensures Dyadic(k, n).Real() < 0.0 <==> k < 0
    ensures Dyadic(k, n).Real() <= 0.0 <==> k <= 0
  {
    RealOrderAtPower(k, 0, n);
    RealOrderAtPower(0, k, n);
    assert Dyadic(0, n).Real() == 0.0;
  }

  /** A dyadic interval does not reach across zero. */
  lemma EventsSameSide(times: seq<real>, res: int, d: DyadicInterval, i: nat, j: nat)
    requires Granular(times, res) && i < |times| && j < |times|
    requires EventIn(times[i], d) && EventIn(times[j], d)
    ensures SameSide(FloorAt(times[i], res), FloorAt(times[j], res))
  {
    SideOfReal(d.multiplier, d.power);
    SideOfReal(d.multiplier + 1, d.power);
    SideOfReal(FloorAt(times[i], res), res);
    SideOfReal(FloorAt(times[j], res), res);
  }

  /** The finest dyadic interval of power at most res that holds the grains of all events in d. */
  function Smallest(times: seq<real>, res: int, d: DyadicInterval): Option<DyadicInterval>
    requires Granular(times, res)
  {
    if Beyond(times, d) <= First(times, d) then None
    else
      EventRange(times, d);
      EventsSameSide(times, res, d, First(times, d), Beyond(times, d) - 1);
      Some(Lca(FloorAt(times[First(times, d)], res), FloorAt(times[Beyond(times, d) - 1], res), res))
  }

  lemma GrainInside(d: DyadicInterval, g: DyadicInterval)
    requires d.power <= g.power && EventIn(g.IncludedEnd().Real(), d)
    ensures d.ContainsDyadic(g)
  {
    var t := g.power;
    WindowReal(d, t);
    RealOrderAtPower(g.multiplier, d.Lo(t), t);
    RealOrderAtPower(g.multiplier, d.Hi(t), t);
    ShiftZero(g.multiplier);
    ShiftZero(g.multiplier + 1);
    ContainsWindow(d, g, t);
  }

  /** Dyadic intervals that share a point are nested. */
  lemma MeetingNested(a: DyadicInterval, b: DyadicInterval, t: real)
    requires EventIn(t, a) && EventIn(t, b)
    ensures a.ContainsDyadic(b) || b.ContainsDyadic(a)
    ensures a.power <= b.power ==> a.ContainsDyadic(b)
  {
    var n := Max(a.power, b.power);
    NestedOrDisjoint(a, b, n);
    WindowReal(a, n);
    WindowReal(b, n);
    RealOrderAtPower(b.Lo(n), a.Hi(n), n);
    RealOrderAtPower(a.Lo(n), b.Hi(n), n);
  }

  lemma ContainsEvents(a: DyadicInterval, b: DyadicInterval, t: real)
    requires a.ContainsDyadic(b) && EventIn(t, b)
    ensures EventIn(t, a)
  {
    ContainsIsInclusion(a, b);
  }

  lemma InOneHalf(p: DyadicInterval, d: DyadicInterval)
    requires p.ContainsDyadic(d)
    ensures d == p || p.LeftHalf().ContainsDyadic(d) || p.RightHalf().ContainsDyadic(d)
  {
    ContainsIsUp(p, d);
    var j := d.power - p.power;
    if j > 0 {
      UpStep(d.multiplier, j - 1);
      ContainsIsUp(p.LeftHalf(), d);
      ContainsIsUp(p.RightHalf(), d);
    } else {
      assert Up(d.multiplier, 0) == d.multiplier;
    }
  }

  lemma HalvesInside(p: DyadicInterval, d: DyadicInterval)
    ensures p.LeftHalf().ContainsDyadic(d) ==> p.ContainsDyadic(d) && d != p && !p.RightHalf().ContainsDyadic(d)
    ensures p.RightHalf().ContainsDyadic(d) ==> p.ContainsDyadic(d) && d != p && !p.LeftHalf().ContainsDyadic(d)
  {
    ContainsIsUp(p, d);
    ContainsIsUp(p.LeftHalf(), d);
    ContainsIsUp(p.RightHalf(), d);
    var j := d.power - p.power;
    if j > 0 {
      UpStep(d.multiplier, j - 1);
    }
  }

  // ----- what the smallest interval is -----

  /** It exists exactly when there is an event, and it holds all of them. */
  lemma SmallestHoldsEvents(times: seq<real>, res: int, d: DyadicInterval)
    requires Granular(times, res)
    ensures Smallest(times, res, d).Some? <==> HasEvent(times, d)
    ensures Smallest(times, res, d).Some? ==>
              forall i :: 0 <= i < |times| && EventIn(times[i], d) ==> EventIn(times[i], Smallest(times, res, d).value)
  {
    EventRange(times, d);
    if Smallest(times, res, d).Some? {
      SmallestHoldsEnds(times, res, d);
    }
    hide Lca, FloorAt;
  }

  lemma SmallestHoldsEnds(times: seq<real>, res: int, d: DyadicInterval)
    requires Granular(times, res) && Smallest(times, res, d).Some?
    ensures First(times, d) < Beyond(times, d) <= |times|
    ensures EventIn(times[First(times, d)], Smallest(times, res, d).value)
    ensures EventIn(times[Beyond(times, d) - 1], Smallest(times, res, d).value)
  {
    EventRange(times, d);
    var f, l := First(times, d), Beyond(times, d) - 1;
    EventsSameSide(times, res, d, f, l);
    LcaContains(FloorAt(times[f], res), FloorAt(times[l], res), res);
    var p := Smallest(times, res, d).value;
    HeldByGrain(times, res, f);
    HeldByGrain(times, res, l);
    hide Lca, FloorAt;
    ContainsEvents(p, GrainOf(times[f], res), times[f]);
    ContainsEvents(p, GrainOf(times[l], res), times[l]);
  }

  lemma HeldByGrain(times: seq<real>, res: int, i: nat)
    requires Granular(times, res) && i < |times|
    ensures EventIn(times[i], GrainOf(times[i], res))
  {
    RealOrderAtPower(FloorAt(times[i], res), FloorAt(times[i], res) + 1, res);
  }

  lemma SmallestInside(times: seq<real>, res: int, d: DyadicInterval)
    requires Granular(times, res) && Smallest(times, res, d).Some?
    ensures Smallest(times, res, d).value.power <= res
    ensures d.power <= res ==> d.ContainsDyadic(Smallest(times, res, d).value)
  {
    EventRange(times, d);
    var f, l := First(times, d), Beyond(times, d) - 1;
    EventsSameSide(times, res, d, f, l);
    LcaContains(FloorAt(times[f], res), FloorAt(times[l], res), res);
    if d.power <= res {
      GrainInside(d, GrainOf(times[f], res));
      GrainInside(d, GrainOf(times[l], res));
      LcaIsFinest(FloorAt(times[f], res), FloorAt(times[l], res), res, d);
    }
  }

  /** No interval of power at most res that holds the grains of all events is finer. */
  lemma SmallestIsFinest(times: seq<real>, res: int, d: DyadicInterval, c: DyadicInterval)
    requires Granular(times, res) && Smallest(times, res, d).Some?
    requires forall i :: 0 <= i < |times| && EventIn(times[i], d) ==> c.ContainsDyadic(GrainOf(times[i], res))
    ensures c.ContainsDyadic(Smallest(times, res, d).value)
  {
    EventRange(times, d);
    var f, l := First(times, d), Beyond(times, d) - 1;
    EventsSameSide(times, res, d, f, l);
    LcaIsFinest(FloorAt(times[f], res), FloorAt(times[l], res), res, c);
  }

  lemma SameRange(times: seq<real>, d: DyadicInterval, d': DyadicInterval)
    requires Increasing(times)
    requires forall i :: 0 <= i < |times| ==> (EventIn(times[i], d) <==> EventIn(times[i], d'))
    ensures First(times, d) < Beyond(times, d) <==> First(times, d') < Beyond(times, d')
    ensures First(times, d) < Beyond(times, d) ==>
              First(times, d) == First(times, d') && Beyond(times, d) == Beyond(times, d')
  {
    EventRange(times, d);
    EventRange(times, d');
    SameHasEvent(times, d, d');
    SameHasEvent(times, d', d);
    hide EventIn, First, Beyond, HasEvent, Increasing;
    if First(times, d) < Beyond(times, d) {
      assert EventIn(times[First(times, d)], d');
      assert EventIn(times[Beyond(times, d) - 1], d');
      assert EventIn(times[First(times, d')], d);
      assert EventIn(times[Beyond(times, d') - 1], d);
    }
  }

  /** Only the events matter. */
  lemma SmallestSameEvents(times: seq<real>, res: int, d: DyadicInterval, d': DyadicInterval)
    requires Granular(times, res)
    requires forall i :: 0 <= i < |times| ==> (EventIn(times[i], d) <==> EventIn(times[i], d'))
    ensures Smallest(times, res, d) == Smallest(times, res, d')
  {
    SameRange(times, d, d');
    hide EventIn, First, Beyond;
  }

  lemma SameHasEvent(times: seq<real>, d: DyadicInterval, d': DyadicInterval)
    requires forall i :: 0 <= i < |times| && EventIn(times[i], d) ==> EventIn(times[i], d')
    ensures HasEvent(times, d) ==> HasEvent(times, d')
  {
    if HasEvent(times, d) {
      var i :| 0 <= i < |times| && EventIn(times[i], d);
      assert EventIn(times[i], d');
    }
  }

  /** A grain holds one event at most, the one at its start. */
  lemma GrainEvent(times: seq<real>, res: int, g: DyadicInterval, i: nat)
    requires Granular(times, res) && i < |times| && g.power == res && EventIn(times[i], g)
    ensures times[i] == g.IncludedEnd().Real() && g == GrainOf(times[i], res)
  {
    var k := FloorAt(times[i], res);
    RealOrderAtPower(g.multiplier, k, res);
    RealOrderAtPower(k, g.multiplier, res);
    RealOrderAtPower(k, g.multiplier + 1, res);
  }

  /** Inside a grain, and so at any finer resolution, the answer is the grain itself. */
  lemma SmallestOfFine(times: seq<real>, res: int, g: DyadicInterval, d: DyadicInterval)
    requires Granular(times, res) && g.power == res && g.ContainsDyadic(d) && HasEvent(times, d)
    ensures Smallest(times, res, d) == Some(g)
  {
    EventRange(times, d);
    var f, l := First(times, d), Beyond(times, d) - 1;
    ContainsEvents(g, d, times[f]);
    ContainsEvents(g, d, times[l]);
    GrainEvent(times, res, g, f);
    GrainEvent(times, res, g, l);
  }

  /** The smallest interval is its own smallest interval. */
  lemma SmallestOfSmallest(times: seq<real>, res: int, d: DyadicInterval)
    requires Granular(times, res) && d.power <= res && Smallest(times, res, d).Some?
    ensures Smallest(times, res, Smallest(times, res, d).value) == Smallest(times, res, d)
    ensures forall i :: 0 <= i < |times| ==>
              (EventIn(times[i], d) <==> EventIn(times[i], Smallest(times, res, d).value))
  {
    var p := Smallest(times, res, d).value;
    SmallestInside(times, res, d);
    SmallestHoldsEvents(times, res, d);
    ContainsIsInclusion(d, p);
    SmallestSameEvents(times, res, d, p);
  }

  function EventCount(times: seq<real>, d: DyadicInterval): nat {
    if First(times, d) <= Beyond(times, d) then Beyond(times, d) - First(times, d) else 0
  }

  /** Unless it is a grain, both halves of the smallest interval have fewer events than d. */
  lemma SmallestSplits(times: seq<real>, res: int, d: DyadicInterval)
    requires Granular(times, res) && d.power <= res && Smallest(times, res, d).Some?
    requires Smallest(times, res, d).value.power != res
    ensures Smallest(times, res, d).value.power < res
    ensures EventCount(times, Smallest(times, res, d).value.LeftHalf()) < EventCount(times, d)
    ensures EventCount(times, Smallest(times, res, d).value.RightHalf()) < EventCount(times, d)
  {
    var p := Smallest(times, res, d).value;
    EventRange(times, d);
    var f, l := First(times, d), Beyond(times, d) - 1;
    EventsSameSide(times, res, d, f, l);
    var a, b := FloorAt(times[f], res), FloorAt(times[l], res);
    SmallestInside(times, res, d);
    FloorAtMono(times[f], times[l], res);
    LcaSeparates(a, b, res);
    HalfEvents(times, res, d, p, p.LeftHalf(), p.RightHalf(), l);
    HalfEvents(times, res, d, p, p.RightHalf(), p.LeftHalf(), f);
  }

  /** An event of d in the other half makes this half smaller. */
  lemma HalfEvents(times: seq<real>, res: int, d: DyadicInterval, p: DyadicInterval,
                   half: DyadicInterval, other: DyadicInterval, i: nat)
    requires Granular(times, res) && d.ContainsDyadic(p) && i < |times|
    requires (half == p.LeftHalf() && other == p.RightHalf()) || (half == p.RightHalf() && other == p.LeftHalf())
    requires other.ContainsDyadic(GrainOf(times[i], res))
    requires i == First(times, d) || i == Beyond(times, d) - 1
    ensures EventCount(times, half) < EventCount(times, d)
  {
    var g := GrainOf(times[i], res);
    var t := times[i];
    RealOrderAtPower(g.multiplier, g.multiplier + 1, res);
    ContainsEvents(other, g, t);
    HalvesInside(p, g);
    ContainsEvents(p, g, t);
    ContainsEvents(d, p, t);
    HalvesMeet(p);
    forall j | 0 <= j < |times| && EventIn(times[j], half)
      ensures EventIn(times[j], d)
    {
      ContainsEvents(d, p, times[j]);
    }
    CountLess(times, half, d, i);
  }

  lemma CountLess(times: seq<real>, half: DyadicInterval, d: DyadicInterval, i: nat)
    requires Increasing(times) && i < |times|
    requires forall j :: 0 <= j < |times| && EventIn(times[j], half) ==> EventIn(times[j], d)
    requires EventIn(times[i], d) && !EventIn(times[i], half)
    requires i == First(times, d) || i == Beyond(times, d) - 1
    ensures EventCount(times, half) < EventCount(times, d)
  {
    EventRange(times, half);
    EventRange(times, d);
    hide EventIn, First, Beyond;
    if First(times, half) < Beyond(times, half) {
      assert EventIn(times[First(times, half)], d);
      assert EventIn(times[Beyond(times, half) - 1], d);
    }
  }
}
