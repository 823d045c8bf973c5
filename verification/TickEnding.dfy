/** When building a tick stream's index ends: the recursion and the expansion loops with a bound on
    their depth, and exactly when some bound is enough. */
module TickEnding {
  import opened Wrappers
  import opened Powers
  import opened DyadicIntervals
  import opened Monoids
  import opened Timeline
  import opened TickIndex
  import opened TickFill
  import opened TickRoots

  type Index<T> = map<DyadicInterval, T>

  /** The recursion over di with calls nested at most `depth` deep: the index it leaves and the value
      it returns, or nothing if it wants to go deeper. */
  function Run<T(==)>(m: Monoid<T>, times: seq<real>, res: int, depth: nat, data: Index<T>,
                      di: DyadicInterval): Option<(Index<T>, T)>
    requires Granular(times, res)
    decreases depth
  {
    if depth == 0 then None
    else
      match Smallest(times, res, di)
      case None => Some((data, m.one))
      case Some(p) =>
        var found := if p in data then data else data[p := m.one];
        if found[p] != m.one then Some((found, found[p])) else RunHalves(m, times, res, depth, found, p)
  }

  function RunHalves<T(==)>(m: Monoid<T>, times: seq<real>, res: int, depth: nat, found: Index<T>,
                            p: DyadicInterval): Option<(Index<T>, T)>
    requires Granular(times, res) && depth > 0
    decreases depth, 0
  {
    match Run(m, times, res, depth - 1, found, p.LeftHalf())
    case None => None
    case Some(left) =>
      match Run(m, times, res, depth - 1, left.0, p.RightHalf())
      case None => None
      case Some(right) =>
        var lie := m.mul(left.1, right.1);
        Some((right.0[p := lie], lie))
  }

  lemma {:induction false} RunDeeper<T>(m: Monoid<T>, times: seq<real>, res: int, depth: nat, more: nat,
                                        data: Index<T>, di: DyadicInterval)
    requires Granular(times, res) && depth <= more && Run(m, times, res, depth, data, di).Some?
    ensures Run(m, times, res, more, data, di) == Run(m, times, res, depth, data, di)
    decreases depth
  {
    hide Smallest, Granular;
    var p := Smallest(times, res, di);
    if p.Some? {
      var found := if p.value in data then data else data[p.value := m.one];
      if found[p.value] == m.one {
        RunDeeper(m, times, res, depth - 1, more - 1, found, p.value.LeftHalf());
        var left := Run(m, times, res, depth - 1, found, p.value.LeftHalf()).value;
        RunDeeper(m, times, res, depth - 1, more - 1, left.0, p.value.RightHalf());
      }
    }
  }

  /** A zero, or not there yet. */
  predicate Pending<T(==)>(m: Monoid<T>, data: Index<T>, k: DyadicInterval) {
    k in data ==> data[k] == m.one
  }

  /** What has a value keeps it. */
  lemma {:induction false} RunKeeps<T>(m: Monoid<T>, times: seq<real>, res: int, depth: nat, data: Index<T>,
                                       di: DyadicInterval, k: DyadicInterval)
    requires Granular(times, res) && Run(m, times, res, depth, data, di).Some? && !Pending(m, data, k)
    ensures k in Run(m, times, res, depth, data, di).value.0
    ensures Run(m, times, res, depth, data, di).value.0[k] == data[k]
    decreases depth
  {
    hide Smallest, Granular;
    var p := Smallest(times, res, di);
    if p.Some? {
      var found := if p.value in data then data else data[p.value := m.one];
      if found[p.value] == m.one {
        RunKeeps(m, times, res, depth - 1, found, p.value.LeftHalf(), k);
        var left := Run(m, times, res, depth - 1, found, p.value.LeftHalf()).value;
        RunKeeps(m, times, res, depth - 1, left.0, p.value.RightHalf(), k);
      }
    }
  }

  /** At a grain without a value the recursion comes back to the same grain, to any depth. */
  lemma {:induction false} StuckAtGrain<T>(m: Monoid<T>, times: seq<real>, res: int, depth: nat, data: Index<T>,
                                           d: DyadicInterval, i: nat)
    requires Granular(times, res) && i < |times| && Smallest(times, res, d) == Some(GrainOf(times[i], res))
    requires Pending(m, data, GrainOf(times[i], res))
    ensures Run(m, times, res, depth, data, d).None?
    decreases depth
  {
    hide Smallest, Granular;
    if depth > 0 {
      var g := GrainOf(times[i], res);
      ZeroGrainRevisited(times, res, i);
      var found := if g in data then data else data[g := m.one];
      StuckAtGrain(m, times, res, depth - 1, found, g.LeftHalf(), i);
    }
  }

  /** A smallest interval of the finest power is the grain of one of the events. */
  lemma FinestIsGrain(times: seq<real>, res: int, d: DyadicInterval) returns (i: nat)
    requires Granular(times, res) && Smallest(times, res, d).Some? && Smallest(times, res, d).value.power == res
    ensures i < |times| && Smallest(times, res, d) == Some(GrainOf(times[i], res))
  {
    SmallestHoldsEvents(times, res, d);
    i :| 0 <= i < |times| && EventIn(times[i], d);
    GrainEvent(times, res, Smallest(times, res, d).value, i);
  }

  ghost predicate SameEntry<T>(a: Index<T>, b: Index<T>, k: DyadicInterval) {
    (k in a <==> k in b) && (k in a ==> a[k] == b[k])
  }

  /** Nothing outside the interval is touched. */
  lemma {:induction false} RunTouchesInside<T>(m: Monoid<T>, times: seq<real>, res: int, depth: nat, data: Index<T>,
                                               di: DyadicInterval, k: DyadicInterval)
    requires Granular(times, res) && di.power <= res && Run(m, times, res, depth, data, di).Some?
    requires !di.ContainsDyadic(k)
    ensures SameEntry(data, Run(m, times, res, depth, data, di).value.0, k)
    decreases depth
  {
    hide Smallest, Granular;
    var s := Smallest(times, res, di);
    if s.Some? {
      var p := s.value;
      InsideOnly(times, res, di, p, k);
      var found := if p in data then data else data[p := m.one];
      if found[p] == m.one {
        if p.power == res {
          var i := FinestIsGrain(times, res, di);
          StuckAtGrain(m, times, res, depth, data, di, i);
        } else {
          RunTouchesInside(m, times, res, depth - 1, found, p.LeftHalf(), k);
          var left := Run(m, times, res, depth - 1, found, p.LeftHalf()).value;
          RunTouchesInside(m, times, res, depth - 1, left.0, p.RightHalf(), k);
        }
      }
    }
  }

  lemma InsideOnly(times: seq<real>, res: int, di: DyadicInterval, p: DyadicInterval, k: DyadicInterval)
    requires Granular(times, res) && di.power <= res && Smallest(times, res, di) == Some(p) && !di.ContainsDyadic(k)
    ensures p.power <= res && k != p && !p.LeftHalf().ContainsDyadic(k) && !p.RightHalf().ContainsDyadic(k)
  {
    SmallestInside(times, res, di);
    HalvesInside(p, k);
    if p.ContainsDyadic(k) {
      ContainsTransitive(di, p, k);
    }
  }

  /** Nothing above a grain, nor the grain itself, has a value. */
  ghost predicate PendingAbove<T>(m: Monoid<T>, data: Index<T>, g: DyadicInterval) {
    forall k: DyadicInterval :: k in data && k.ContainsDyadic(g) ==> data[k] == m.one
  }

  /** The recursion over an interval that holds such a grain wants to go deeper than any bound. */
  lemma {:induction false} Stuck<T>(m: Monoid<T>, times: seq<real>, res: int, depth: nat, data: Index<T>,
                                    di: DyadicInterval, i: nat)
    requires Granular(times, res) && di.power <= res && i < |times| && EventIn(times[i], di)
    requires PendingAbove(m, data, GrainOf(times[i], res))
    ensures Run(m, times, res, depth, data, di).None?
    decreases depth
  {
    hide Smallest, Granular;
    if depth > 0 {
      var g := GrainOf(times[i], res);
      var p := HeldBySmallest(times, res, di, i);
      var found := if p in data then data else data[p := m.one];
      assert PendingAbove(m, found, g) && found[p] == m.one;
      if p.power == res {
        ContainsItself(g);
        StuckAtGrain(m, times, res, depth, data, di, i);
      } else if EventIn(times[i], p.LeftHalf()) {
        Stuck(m, times, res, depth - 1, found, p.LeftHalf(), i);
      } else if Run(m, times, res, depth - 1, found, p.LeftHalf()).Some? {
        var left := Run(m, times, res, depth - 1, found, p.LeftHalf()).value;
        StillPendingAbove(m, times, res, depth - 1, found, p.LeftHalf(), i);
        Stuck(m, times, res, depth - 1, left.0, p.RightHalf(), i);
      }
    }
  }

  lemma HeldBySmallest(times: seq<real>, res: int, di: DyadicInterval, i: nat) returns (p: DyadicInterval)
    requires Granular(times, res) && di.power <= res && i < |times| && EventIn(times[i], di)
    ensures Smallest(times, res, di) == Some(p) && p.power <= res && p.ContainsDyadic(GrainOf(times[i], res))
    ensures p.power == res ==> p == GrainOf(times[i], res)
    ensures EventIn(times[i], p.LeftHalf()) || EventIn(times[i], p.RightHalf())
  {
    SmallestHoldsEvents(times, res, di);
    SmallestInside(times, res, di);
    p := Smallest(times, res, di).value;
    GrainInside(p, GrainOf(times[i], res));
    if p.power == res {
      GrainEvent(times, res, p, i);
    }
    HalvesMeet(p);
  }

  lemma StillPendingAbove<T>(m: Monoid<T>, times: seq<real>, res: int, depth: nat, data: Index<T>,
                             di: DyadicInterval, i: nat)
    requires Granular(times, res) && di.power <= res && i < |times| && !EventIn(times[i], di)
    requires Run(m, times, res, depth, data, di).Some? && PendingAbove(m, data, GrainOf(times[i], res))
    ensures PendingAbove(m, Run(m, times, res, depth, data, di).value.0, GrainOf(times[i], res))
  {
    hide Run, Smallest;
    var g := GrainOf(times[i], res);
    var after := Run(m, times, res, depth, data, di).value.0;
    HeldByGrain(times, res, i);
    forall k: DyadicInterval | k in after && k.ContainsDyadic(g)
      ensures after[k] == m.one
    {
      if di.ContainsDyadic(k) {
        ContainsTransitive(di, k, g);
        ContainsEvents(di, g, times[i]);
      }
      RunTouchesInside(m, times, res, depth, data, di, k);
    }
  }

  ghost predicate GrainsHaveValues<T>(m: Monoid<T>, times: seq<real>, res: int, data: Index<T>) {
    forall i :: 0 <= i < |times| ==> !Pending(m, data, GrainOf(times[i], res))
  }

  /** With a value in every grain one level more than there are events is deep enough. */
  lemma {:induction false} RunEnds<T>(m: Monoid<T>, times: seq<real>, res: int, depth: nat, data: Index<T>,
                                      di: DyadicInterval)
    requires Granular(times, res) && di.power <= res && depth > EventCount(times, di)
    requires GrainsHaveValues(m, times, res, data)
    ensures Run(m, times, res, depth, data, di).Some?
    ensures GrainsHaveValues(m, times, res, Run(m, times, res, depth, data, di).value.0)
    decreases depth
  {
    hide Smallest, Granular, EventCount;
    var s := Smallest(times, res, di);
    if s.Some? {
      var p := s.value;
      var found := if p in data then data else data[p := m.one];
      SmallestInside(times, res, di);
      if found[p] == m.one {
        PendingIsNoGrain(m, times, res, data, di);
        SmallestSplits(times, res, di);
        assert GrainsHaveValues(m, times, res, found);
        RunEnds(m, times, res, depth - 1, found, p.LeftHalf());
        var left := Run(m, times, res, depth - 1, found, p.LeftHalf()).value;
        RunEnds(m, times, res, depth - 1, left.0, p.RightHalf());
      }
    }
    GrainsStay(m, times, res, depth, data, di);
  }

  lemma PendingIsNoGrain<T>(m: Monoid<T>, times: seq<real>, res: int, data: Index<T>, di: DyadicInterval)
    requires Granular(times, res) && GrainsHaveValues(m, times, res, data)
    requires Smallest(times, res, di).Some? && Pending(m, data, Smallest(times, res, di).value)
    ensures Smallest(times, res, di).value.power != res
  {
    if Smallest(times, res, di).value.power == res {
      var i := FinestIsGrain(times, res, di);
    }
  }

  lemma GrainsStay<T>(m: Monoid<T>, times: seq<real>, res: int, depth: nat, data: Index<T>, di: DyadicInterval)
    requires Granular(times, res) && Run(m, times, res, depth, data, di).Some? && GrainsHaveValues(m, times, res, data)
    ensures GrainsHaveValues(m, times, res, Run(m, times, res, depth, data, di).value.0)
  {
    hide Run;
    forall i | 0 <= i < |times|
      ensures !Pending(m, Run(m, times, res, depth, data, di).value.0, GrainOf(times[i], res))
    {
      assert !Pending(m, data, GrainOf(times[i], res));
      RunKeeps(m, times, res, depth, data, di, GrainOf(times[i], res));
    }
  }

  /** The recursion put together from the two halves. */
  lemma RunFromHalves<T>(m: Monoid<T>, times: seq<real>, res: int, leftDepth: nat, rightDepth: nat, data: Index<T>,
                         found: Index<T>,
                         left: Index<T>, right: Index<T>, l: T, r: T, di: DyadicInterval)
    requires Granular(times, res) && Smallest(times, res, di).Some?
    requires var p := Smallest(times, res, di).value;
             && found == (if p in data then data else data[p := m.one]) && found[p] == m.one
             && Run(m, times, res, leftDepth, found, p.LeftHalf()) == Some((left, l))
             && Run(m, times, res, rightDepth, left, p.RightHalf()) == Some((right, r))
    ensures Run(m, times, res, leftDepth + rightDepth + 1, data, di)
         == Some((right[Smallest(times, res, di).value := m.mul(l, r)], m.mul(l, r)))
  {
    hide Smallest, Granular;
    var p := Smallest(times, res, di).value;
    RunDeeper(m, times, res, leftDepth, leftDepth + rightDepth, found, p.LeftHalf());
    RunDeeper(m, times, res, rightDepth, leftDepth + rightDepth, left, p.RightHalf());
  }

  // ----- the expansion loops -----

  /** Expanding i at most `steps` times until it holds the other grain. */
  function ExpandRun(steps: nat, i: DyadicInterval, back: DyadicInterval): Option<DyadicInterval>
    decreases steps
  {
    if i.ContainsDyadic(back) then Some(i)
    else if steps == 0 then None
    else ExpandRun(steps - 1, i.Expanded(), back)
  }

  lemma {:induction false} ExpandRunStuck(steps: nat, i: DyadicInterval, back: DyadicInterval)
    requires i.power <= back.power && !SameSide(i.multiplier, back.multiplier)
    ensures ExpandRun(steps, i, back).None?
    decreases steps
  {
    ContainsIsUp(i, back);
    ParentIs(i);
    UpKeepsSide(back.multiplier, back.power - i.power);
    if steps > 0 {
      ExpandRunStuck(steps - 1, i.Expanded(), back);
    }
  }

  lemma {:induction false} ExpandRunIs(steps: nat, top: nat, j: nat, a: int, b: int, n: int)
    requires j <= top && Up(a, top) == Up(b, top) && forall i: nat :: i < top ==> Up(a, i) != Up(b, i)
    ensures ExpandRun(steps, DyadicInterval(Up(a, j), n - j), DyadicInterval(b, n))
         == if steps >= top - j then Some(DyadicInterval(Up(a, top), n - top)) else None
    decreases top - j
  {
    var d := DyadicInterval(Up(a, j), n - j);
    ContainsIsUp(d, DyadicInterval(b, n));
    ParentIs(d);
    UpStep(a, j);
    if j < top && steps > 0 {
      ExpandRunIs(steps - 1, top, j + 1, a, b, n);
    }
  }

  /** The loop from one grain to another ends exactly if both are on one side of zero, and then at
      the finest interval above both. */
  lemma ExpandRunEnds(a: int, b: int, n: int) returns (top: nat)
    ensures SameSide(a, b) ==> forall steps: nat :: ExpandRun(steps, DyadicInterval(a, n), DyadicInterval(b, n))
                                 == if steps >= top then Some(Lca(a, b, n)) else None
    ensures !SameSide(a, b) ==>
            forall steps: nat :: ExpandRun(steps, DyadicInterval(a, n), DyadicInterval(b, n)) == None
  {
    if SameSide(a, b) {
      top := LcaIsUp(a, b, n);
      forall steps: nat
        ensures ExpandRun(steps, DyadicInterval(a, n), DyadicInterval(b, n)) == if steps >= top then
                Some(Lca(a, b, n)) else None
      {
        ExpandRunIs(steps, top, 0, a, b, n);
      }
    } else {
      top := 0;
      forall steps: nat
        ensures ExpandRun(steps, DyadicInterval(a, n), DyadicInterval(b, n)) == None
      {
        ExpandRunStuck(steps, DyadicInterval(a, n), DyadicInterval(b, n));
      }
    }
  }

  // ----- building -----

  /** One side of zero: the loop from the first to the last grain there, then the recursion. */
  function SideRun<T(==)>(m: Monoid<T>, times: seq<real>, res: int, bound: nat, data: Index<T>, f: nat,
                          l: nat): Option<Index<T>>
    requires Granular(times, res) && f < |times| && l < |times|
  {
    match ExpandRun(bound, GrainOf(times[f], res), GrainOf(times[l], res))
    case None => None
    case Some(root) =>
      match Run(m, times, res, bound, data, root)
      case None => None
      case Some(done) => Some(done.0)
  }

  /** The index made from the filled map, with loops and recursion bounded. */
  function BuildRun<T(==)>(m: Monoid<T>, times: seq<real>, res: int, bound: nat, data: Index<T>): Option<Index<T>>
    requires Granular(times, res)
  {
    match NegativeRun(m, times, res, bound, data)
    case None => None
    case Some(between) => PositiveRun(m, times, res, bound, between)
  }

  function NegativeRun<T(==)>(m: Monoid<T>, times: seq<real>, res: int, bound: nat, data: Index<T>): Option<Index<T>>
    requires Granular(times, res)
  {
    if UpperBound(times, 0.0) == 0 then Some(data)
    else SideRun(m, times, res, bound, data, 0, UpperBound(times, 0.0) - 1)
  }

  function PositiveRun<T(==)>(m: Monoid<T>, times: seq<real>, res: int, bound: nat, data: Index<T>): Option<Index<T>>
    requires Granular(times, res)
  {
    if LowerBound(times, 0.0) == |times| then Some(data)
    else SideRun(m, times, res, bound, data, LowerBound(times, 0.0), |times| - 1)
  }

  lemma SideStuck<T>(m: Monoid<T>, times: seq<real>, res: int, bound: nat, data: Index<T>, f: nat, l: nat, i: nat)
    requires Granular(times, res) && f <= i <= l < |times| && PendingAbove(m, data, GrainOf(times[i], res))
    ensures SideRun(m, times, res, bound, data, f, l).None?
  {
    hide Run, Granular, PendingAbove;
    var top := ExpandRunEnds(FloorAt(times[f], res), FloorAt(times[l], res), res);
    if SameSide(FloorAt(times[f], res), FloorAt(times[l], res)) {
      var root := Lca(FloorAt(times[f], res), FloorAt(times[l], res), res);
      RootHolds(times, res, root, f, l);
      Stuck(m, times, res, bound, data, root, i);
    }
  }

  /** A side that has been built leaves later grains as they are. */
  lemma SideLeaves<T>(m: Monoid<T>, times: seq<real>, res: int, bound: nat, data: Index<T>, f: nat, l: nat, i: nat)
    requires Granular(times, res) && f <= l < |times| && i < |times| && PendingAbove(m, data, GrainOf(times[i], res))
    requires SideRun(m, times, res, bound, data, f, l).Some?
    ensures PendingAbove(m, SideRun(m, times, res, bound, data, f, l).value, GrainOf(times[i], res))
  {
    hide Run, Granular, PendingAbove;
    var top := ExpandRunEnds(FloorAt(times[f], res), FloorAt(times[l], res), res);
    var root := Lca(FloorAt(times[f], res), FloorAt(times[l], res), res);
    RootHolds(times, res, root, f, l);
    if EventIn(times[i], root) {
      Stuck(m, times, res, bound, data, root, i);
    }
    StillPendingAbove(m, times, res, bound, data, root, i);
  }

  lemma SideEnds<T>(m: Monoid<T>, times: seq<real>, res: int, f: nat, l: nat) returns (enough: nat)
    requires Granular(times, res) && f <= l < |times|
    requires SameSide(FloorAt(times[f], res), FloorAt(times[l], res))
    ensures forall bound: nat, data: Index<T> :: bound >= enough && GrainsHaveValues(m, times, res, data) ==>
              SideEndsAt(m, times, res, bound, data, f, l)
  {
    var top := ExpandRunEnds(FloorAt(times[f], res), FloorAt(times[l], res), res);
    var root := Lca(FloorAt(times[f], res), FloorAt(times[l], res), res);
    RootHolds(times, res, root, f, l);
    enough := top + EventCount(times, root) + 1;
    hide Run, Granular, EventCount;
    forall bound: nat, data: Index<T> | bound >= enough && GrainsHaveValues(m, times, res, data)
      ensures SideEndsAt(m, times, res, bound, data, f, l)
    {
      RunEnds(m, times, res, bound, data, root);
    }
  }

  ghost predicate SideEndsAt<T>(m: Monoid<T>, times: seq<real>, res: int, bound: nat, data: Index<T>, f: nat, l: nat)
    requires Granular(times, res) && f < |times| && l < |times|
  {
    SideRun(m, times, res, bound, data, f, l).Some?
        && GrainsHaveValues(m, times, res, SideRun(m, times, res, bound, data, f, l).value)
  }

  lemma InOrder(times: seq<real>, i: nat, j: nat)
    requires Increasing(times) && i <= j < |times|
    ensures times[i] <= times[j]
  {
  }

  /** Events before zero and one at zero: their grains are on different sides. */
  lemma StraddlingSides(times: seq<real>, res: int)
    requires Granular(times, res) && UpperBound(times, 0.0) != 0
    ensures StraddlesZero(times) <==>
              !SameSide(FloorAt(times[0], res), FloorAt(times[UpperBound(times, 0.0) - 1], res))
  {
    var last := UpperBound(times, 0.0) - 1;
    UpperBoundSeparates(times, 0.0);
    SideOfReal(FloorAt(times[0], res), res);
    SideOfReal(FloorAt(times[last], res), res);
    if StraddlesZero(times) {
      var j :| 0 <= j < |times| && times[j] == 0.0;
      InOrder(times, j, last);
    }
    assert times[last] in times;
    assert last > 0 ==> times[0] < times[last];
  }

  /** So the loop for the negative events ends exactly if the events do not straddle zero. */
  lemma NegativeLoopEnds(times: seq<real>, res: int)
    requires Granular(times, res) && UpperBound(times, 0.0) != 0
    ensures var first, last := GrainOf(times[0], res), GrainOf(times[UpperBound(times, 0.0) - 1], res);
            StraddlesZero(times) <==> forall steps: nat :: ExpandRun(steps, first, last).None?
  {
    StraddlingSides(times, res);
    var a, b := FloorAt(times[0], res), FloorAt(times[UpperBound(times, 0.0) - 1], res);
    var top := ExpandRunEnds(a, b, res);
    hide StraddlesZero, SameSide, ExpandRun, UpperBound, FloorAt, Granular;
    if !StraddlesZero(times) {
      assert ExpandRun(top, DyadicInterval(a, res), DyadicInterval(b, res)).Some?;
    }
  }

  lemma FilledPendingAbove<T>(m: Monoid<T>, grains: seq<(real, T)>, res: int, data: Index<T>, i: nat)
    requires Granular(Times(grains), res) && HoldsGrains(grains, res, data) && i < |grains| && grains[i].1 == m.one
    ensures PendingAbove(m, data, GrainOf(grains[i].0, res))
  {
    var g := GrainOf(grains[i].0, res);
    forall k: DyadicInterval | k in data && k.ContainsDyadic(g)
      ensures data[k] == m.one
    {
      var j :| 0 <= j < |grains| && GrainOf(grains[j].0, res) == k;
      ContainsIsUp(k, g);
      assert Up(g.multiplier, 0) == g.multiplier;
    }
  }

  /** Building has an end exactly if no grain is zero and the events do not straddle zero. */
  lemma BuildingEnds<T>(m: Monoid<T>, grains: seq<(real, T)>, res: int, data: Index<T>)
    requires Granular(Times(grains), res) && HoldsGrains(grains, res, data)
    ensures (exists bound :: BuildRun(m, Times(grains), res, bound, data).Some?) <==>
              !StraddlesZero(Times(grains)) && forall i :: 0 <= i < |grains| ==> grains[i].1 != m.one
  {
    var times := Times(grains);
    hide NegativeRun, PositiveRun, Granular, StraddlesZero;
    if exists bound :: BuildRun(m, times, res, bound, data).Some? {
      var bound :| BuildRun(m, times, res, bound, data).Some?;
      BuiltMeansNotStraddling(m, times, res, bound, data);
      forall i | 0 <= i < |grains|
        ensures grains[i].1 != m.one
      {
        if grains[i].1 == m.one {
          FilledPendingAbove(m, grains, res, data, i);
          assert times[i] == grains[i].0;
          BuildStuck(m, times, res, bound, data, i);
        }
      }
    }
    if !StraddlesZero(times) && forall i :: 0 <= i < |grains| ==> grains[i].1 != m.one {
      FilledHasValues(m, grains, res, data);
      var enough := BuildEnds(m, times, res, data);
      assert BuildRun(m, times, res, enough, data).Some?;
    }
  }

  lemma FilledHasValues<T>(m: Monoid<T>, grains: seq<(real, T)>, res: int, data: Index<T>)
    requires HoldsGrains(grains, res, data) && forall i :: 0 <= i < |grains| ==> grains[i].1 != m.one
    ensures GrainsHaveValues(m, Times(grains), res, data)
  {
    forall i | 0 <= i < |Times(grains)|
      ensures !Pending(m, data, GrainOf(Times(grains)[i], res))
    {
      assert Times(grains)[i] == grains[i].0;
    }
  }

  lemma BuiltMeansNotStraddling<T>(m: Monoid<T>, times: seq<real>, res: int, bound: nat, data: Index<T>)
    requires Granular(times, res) && NegativeRun(m, times, res, bound, data).Some?
    ensures !StraddlesZero(times)
  {
    hide Run, Granular, ExpandRun, StraddlesZero, UpperBound, GrainOf;
    if UpperBound(times, 0.0) != 0 {
      NegativeLoopEnds(times, res);
      SideRunExpands(m, times, res, bound, data, 0, UpperBound(times, 0.0) - 1);
    } else {
      NoneBefore(times);
    }
  }

  lemma SideRunExpands<T>(m: Monoid<T>, times: seq<real>, res: int, bound: nat, data: Index<T>, f: nat, l: nat)
    requires Granular(times, res) && f < |times| && l < |times| && SideRun(m, times, res, bound, data, f, l).Some?
    ensures ExpandRun(bound, GrainOf(times[f], res), GrainOf(times[l], res)).Some?
  {
  }

  lemma NoneBefore(times: seq<real>)
    requires UpperBound(times, 0.0) == 0
    ensures !StraddlesZero(times)
  {
  }

  lemma BuildStuck<T>(m: Monoid<T>, times: seq<real>, res: int, bound: nat, data: Index<T>, i: nat)
    requires Granular(times, res) && i < |times| && PendingAbove(m, data, GrainOf(times[i], res))
    ensures BuildRun(m, times, res, bound, data).None?
  {
    NegativeStuck(m, times, res, bound, data, i);
    hide NegativeRun, PositiveRun, Granular, PendingAbove;
    if NegativeRun(m, times, res, bound, data).Some? {
      PositiveStuck(m, times, res, bound, NegativeRun(m, times, res, bound, data).value, i);
    }
  }

  lemma NegativeStuck<T>(m: Monoid<T>, times: seq<real>, res: int, bound: nat, data: Index<T>, i: nat)
    requires Granular(times, res) && i < |times| && PendingAbove(m, data, GrainOf(times[i], res))
    ensures NegativeRun(m, times, res, bound, data).Some? ==>
              times[i] > 0.0 && PendingAbove(m, NegativeRun(m, times, res, bound, data).value, GrainOf(times[i], res))
  {
    UpperBoundSeparates(times, 0.0);
    hide SideRun, Granular, PendingAbove, UpperBound;
    var zeu := UpperBound(times, 0.0);
    if i < zeu {
      SideStuck(m, times, res, bound, data, 0, zeu - 1, i);
    } else if zeu != 0 && SideRun(m, times, res, bound, data, 0, zeu - 1).Some? {
      SideLeaves(m, times, res, bound, data, 0, zeu - 1, i);
    }
  }

  lemma PositiveStuck<T>(m: Monoid<T>, times: seq<real>, res: int, bound: nat, data: Index<T>, i: nat)
    requires Granular(times, res) && i < |times| && times[i] > 0.0 && PendingAbove(m, data, GrainOf(times[i], res))
    ensures PositiveRun(m, times, res, bound, data).None?
  {
    LowerBoundSeparates(times, 0.0);
    hide SideRun, Granular, PendingAbove, LowerBound;
    SideStuck(m, times, res, bound, data, LowerBound(times, 0.0), |times| - 1, i);
  }

  lemma BuildEnds<T>(m: Monoid<T>, times: seq<real>, res: int, data: Index<T>) returns (enough: nat)
    requires Granular(times, res) && !StraddlesZero(times) && GrainsHaveValues(m, times, res, data)
    ensures BuildRun(m, times, res, enough, data).Some?
  {
    var zeu, zel := UpperBound(times, 0.0), LowerBound(times, 0.0);
    hide SideRun, Granular, StraddlesZero, GrainsHaveValues;
    var e, f := 0, 0;
    if zeu != 0 {
      NegativeSide(times, res);
      e := SideEnds(m, times, res, 0, zeu - 1);
    }
    if zel != |times| {
      PositiveSide(times, res);
      f := SideEnds(m, times, res, zel, |times| - 1);
    }
    enough := e + f;
    if zeu != 0 {
      assert SideEndsAt(m, times, res, enough, data, 0, zeu - 1);
    }
    var between := if zeu == 0 then data else SideRun(m, times, res, enough, data, 0, zeu - 1).value;
    assert GrainsHaveValues(m, times, res, between);
    if zel != |times| {
      assert SideEndsAt(m, times, res, enough, between, zel, |times| - 1);
    }
  }

  /** A side put together from its loop and its recursion. */
  lemma SideFromParts<T>(m: Monoid<T>, times: seq<real>, res: int, data: Index<T>, after: Index<T>, f: nat, l: nat,
                         depth: nat)
    returns (enough: nat)
    requires Granular(times, res) && f < |times| && l < |times|
    requires SameSide(FloorAt(times[f], res), FloorAt(times[l], res))
    requires var r := Run(m, times, res, depth, data, Lca(FloorAt(times[f], res), FloorAt(times[l], res), res));
             r.Some? && r.value.0 == after
    ensures forall bound: nat :: bound >= enough ==> SideRun(m, times, res, bound, data, f, l) == Some(after)
  {
    var root := Lca(FloorAt(times[f], res), FloorAt(times[l], res), res);
    var top := ExpandRunEnds(FloorAt(times[f], res), FloorAt(times[l], res), res);
    enough := top + depth;
    hide Run, Granular, Lca;
    forall bound: nat | bound >= enough
      ensures SideRun(m, times, res, bound, data, f, l) == Some(after)
    {
      RunDeeper(m, times, res, depth, bound, data, root);
    }
  }

  lemma BuildFromParts<T>(m: Monoid<T>, times: seq<real>, res: int, data: Index<T>, between: Index<T>,
                          after: Index<T>, e: nat, f: nat)
    returns (bound: nat)
    requires Granular(times, res) && !StraddlesZero(times)
    requires match NegativeRoot(times, res)
             case None => between == data
             case Some(root) => var r := Run(m, times, res, e, data, root); r.Some? && r.value.0 == between
    requires match PositiveRoot(times, res)
             case None => after == between
             case Some(root) => var r := Run(m, times, res, f, between, root); r.Some? && r.value.0 == after
    ensures BuildRun(m, times, res, bound, data) == Some(after)
  {
    hide Run, Granular, StraddlesZero, SideRun, Lca;
    var zeu, zel := UpperBound(times, 0.0), LowerBound(times, 0.0);
    var b, c := 0, 0;
    if zeu != 0 {
      NegativeSide(times, res);
      b := SideFromParts(m, times, res, data, between, 0, zeu - 1, e);
    }
    if zel != |times| {
      PositiveSide(times, res);
      c := SideFromParts(m, times, res, between, after, zel, |times| - 1, f);
    }
    bound := b + c;
  }
}
