/** A stream of ticks with an index that answers every dyadic query with one look-up. */
module TickStream {
  import opened Wrappers
  import opened Powers
  import opened DyadicIntervals
  import opened Dissection
  import opened Monoids
  import opened Timeline
  import opened TickIndex
  import opened TickTree
  import opened TickFill
  import opened TickRoots
  import opened TickEnding

  /** A query inside one interval of length 1. */
  ghost predicate InUnit(b: int, e: int, n: int)
    requires n >= 0
  {
    exists unit :: Shift(unit, n) <= b && e <= Shift(unit + 1, n)
  }

  class TickStream<T(==, !new)> {
    const m: Monoid<T>
    const resolution: int
    var granularTimes: seq<real>
    var data: map<DyadicInterval, T>

    // The collected grains with their values; their starts are granularTimes.
    ghost var grains: seq<(real, T)>

    ghost predicate Collected()
      reads this
    {
      && Lawful(m)
      && granularTimes == Times(grains)
      && Sorted(grains)
      && Granular(granularTimes, resolution)
    }

    /** No grain is zero, so that a zero in the index means that a node is not computed yet. */
    ghost predicate GrainsPresent()
      reads this
      requires Granular(Times(grains), resolution)
    {
      forall i :: 0 <= i < |grains| ==>
        && GrainOf(grains[i].0, resolution) in data
        && data[GrainOf(grains[i].0, resolution)] != m.one
    }

    ghost predicate Valid()
      reads this
    {
      Collected() && Answers(m, grains, resolution, data)
    }

    /** Builds the index. The requirements are exactly the condition for building to have an end
        (see TickEnding.BuildingEnds): no grain is zero and the events do not straddle zero. */
    constructor (m: Monoid<T>, ticks: seq<(real, T)>, resolution: int)
      requires Lawful(m)
      requires forall i :: 0 <= i < |Grains(m, ticks, resolution)| ==> Grains(m, ticks, resolution)[i].1 != m.one
      requires !StraddlesZero(Times(Grains(m, ticks, resolution)))
      ensures Valid() && this.m == m && this.resolution == resolution
      ensures grains == Grains(m, ticks, resolution)
      ensures exists filled, bound :: HoldsGrains(grains, resolution, filled)
                && BuildRun(m, granularTimes, resolution, bound, filled) == Some(data)
    {
      this.m, this.resolution := m, resolution;
      granularTimes, data, grains := [], map[], [];
      new;
      Fill(ticks);
      ghost var filled := data;
      ghost var bound := IndexBothSides();
      assert BuildRun(m, granularTimes, resolution, bound, filled) == Some(data);
    }

    /** Files every tick under its grain, in arrival order. */
    method Fill(ticks: seq<(real, T)>)
      requires Lawful(m) && granularTimes == [] && data == map[] && grains == []
      modifies this
      ensures Collected() && grains == Grains(m, ticks, resolution)
      ensures HoldsGrains(grains, resolution, data)
    {
      hide HoldsGrains, Granular, Sorted, Lawful;
      GrainsGranular(m, [], resolution);
      EmptyHolds(m, resolution);
      for i := 0 to |ticks|
        invariant Collected() && grains == Grains(m, ticks[..i], resolution)
        invariant HoldsGrains(grains, resolution, data)
      {
        var (t, v) := ticks[i];
        var di := GrainOf(t, resolution);
        assert ticks[..i + 1][..i] == ticks[..i];
        AddTickTimes(m, grains, StartOf(t, resolution), v);
        HoldsAfterTick(m, grains, resolution, data, t, v);
        GrainsGranular(m, ticks[..i + 1], resolution);
        if di in data {
          data := data[di := m.mul(data[di], v)];
        } else {
          data := data[di := v];
        }
        granularTimes := InsertTime(granularTimes, di.IncludedEnd().Real());
        grains := AddTick(m, grains, StartOf(t, resolution), v);
      }
      assert ticks[..|ticks|] == ticks;
    }

    method IndexBothSides() returns (ghost bound: nat)
      requires Collected() && HoldsGrains(grains, resolution, data)
      requires forall i :: 0 <= i < |grains| ==> grains[i].1 != m.one
      requires !StraddlesZero(granularTimes)
      modifies this`data
      ensures Valid()
      ensures BuildRun(m, granularTimes, resolution, bound, old(data)) == Some(data)
    {
      hide Lawful, Smallest, Indexed, NegativeRoot, PositiveRoot, TotalOver, Answers, OnlyBelow, AllFinished,
        FinishedBelow;
      hide Run, NegativeRun, PositiveRun;
      ghost var filled := data;
      ghost var e, f: nat := 0, 0;
      FilledIsFinished(m, grains, resolution, data);
      var negative := SmallestContainingNegative();
      RootPowers(granularTimes, resolution);
      if negative.Some? {
        ghost var before := data;
        FinishedIsBelow(m, grains, resolution, data, negative.value);
        var _, depth := RecursiveLogsig(negative.value);
        e := depth;
        AllStayFinished(m, grains, resolution, before, data, negative.value);
      }
      ghost var between := data;
      var positive := SmallestContainingPositive();
      if positive.Some? {
        FinishedIsBelow(m, grains, resolution, data, positive.value);
        var _, depth := RecursiveLogsig(positive.value);
        f := depth;
        AllStayFinished(m, grains, resolution, between, data, positive.value);
        if negative.Some? {
          OnlyBelowKeys(between, data, positive.value);
          IndexedMono(between.Keys, data.Keys, granularTimes, resolution, negative.value);
        }
      }
      RootsAnswer(m, grains, resolution, data);
      bound := BuildFromParts(m, granularTimes, resolution, filled, between, data, e, f);
    }

    /** std::lower_bound at both ends of di, then expansion of the first grain until it contains
        the last one. */
    method SmallestContaining(di: DyadicInterval) returns (found: Option<DyadicInterval>)
      requires Collected()
      ensures found == Smallest(granularTimes, resolution, di)
    {
      var be := LowerBound(granularTimes, di.IncludedEnd().Real());
      var en := LowerBound(granularTimes, di.ExcludedEnd().Real());
      EventRange(granularTimes, di);
      if en != be {
        EventsSameSide(granularTimes, resolution, di, be, en - 1);
        var i := ExpandUntilContains(GrainOf(granularTimes[be], resolution),
                                     GrainOf(granularTimes[en - 1], resolution));
        return Some(i);
      }
      return None;
    }

    method ExpandUntilContains(start: DyadicInterval, back: DyadicInterval) returns (i: DyadicInterval)
      requires start.power == back.power && SameSide(start.multiplier, back.multiplier)
      ensures i == Lca(start.multiplier, back.multiplier, start.power)
    {
      i := start;
      ghost var top := LcaIsUp(start.multiplier, back.multiplier, start.power);
      ghost var j := 0;
      while !i.ContainsDyadic(back)
        invariant 0 <= j <= top && i == DyadicInterval(Up(start.multiplier, j), start.power - j)
        decreases top - j
      {
        ContainsIsUp(i, back);
        ParentIs(i);
        UpStep(start.multiplier, j);
        i := i.Expanded();
        j := j + 1;
      }
      ContainsIsUp(i, back);
    }

    method SmallestContainingNegative() returns (found: Option<DyadicInterval>)
      requires Collected() && !StraddlesZero(granularTimes)
      ensures found == NegativeRoot(granularTimes, resolution)
    {
      var zeu := UpperBound(granularTimes, 0.0);
      if zeu != 0 {
        NegativeSide(granularTimes, resolution);
        var i := ExpandUntilContains(GrainOf(granularTimes[0], resolution),
                                     GrainOf(granularTimes[zeu - 1], resolution));
        return Some(i);
      }
      return None;
    }

    method SmallestContainingPositive() returns (found: Option<DyadicInterval>)
      requires Collected()
      ensures found == PositiveRoot(granularTimes, resolution)
    {
      var zeu := LowerBound(granularTimes, 0.0);
      hide Lca, Granular, Sorted;
      if zeu != |granularTimes| {
        PositiveSide(granularTimes, resolution);
        var i := ExpandUntilContains(GrainOf(granularTimes[zeu], resolution),
                                     GrainOf(granularTimes[|granularTimes| - 1], resolution));
        return Some(i);
      }
      return None;
    }

    /** Fills the index below di and gives the log signature over di. */
    method RecursiveLogsig(di: DyadicInterval) returns (lie: T, ghost depth: nat)
      requires Collected() && GrainsPresent() && di.power <= resolution
      requires FinishedBelow(m, grains, resolution, data, di)
      modifies this`data
      ensures GrainsPresent()
      ensures FinishedBelow(m, grains, resolution, data, di)
      ensures Indexed(data.Keys, granularTimes, resolution, di)
      ensures OnlyBelow(old(data), data, di)
      ensures lie == TotalOver(m, grains, di)
      ensures Run(m, granularTimes, resolution, depth, old(data), di) == Some((data, lie))
      decreases EventCount(granularTimes, di)
    {
      hide Lawful, Smallest, Indexed, Total, EventCount, TotalOver, Product, RunHalves;
      var found := SmallestContaining(di);
      TotalOfSmallest(m, grains, resolution, di);
      ghost var data0 := data;
      if found == None {
        NothingBelow(data.Keys, granularTimes, resolution, di);
        SameIsOnlyBelow(data, di);
        return m.one, 1;
      }
      var p := found.value;
      SmallestInside(granularTimes, resolution, di);
      if p !in data {
        data := data[p := m.one];
      }
      if data[p] != m.one {
        FoundIsIndexed(m, grains, resolution, data, di, p);
        SameIsOnlyBelow(data, di);
        return data[p], 1;
      }
      NotAGrain(grains, resolution, data, m.one, di, p);
      SmallestSplits(granularTimes, resolution, di);
      ghost var data1 := data;
      BeforeHalves(m, grains, resolution, di, p, data0, m.one, data1);
      var left, leftDepth := RecursiveLogsig(p.LeftHalf());
      ghost var data2 := data;
      BetweenHalves(m, grains, resolution, di, p, data0, data1, data2);
      var right, rightDepth := RecursiveLogsig(p.RightHalf());
      ghost var data3 := data;
      TotalOfHalves(m, grains, p);
      ProductPair(m, left, right);
      ghost var multiplied;
      lie, multiplied := Cbh(m, [left, right]);
      NodeFinished(m, grains, resolution, di, p, data0, data1, data2, data3, data3[p := lie]);
      data := data[p := lie];
      depth := leftDepth + rightDepth + 1;
      RunFromHalves(m, granularTimes, resolution, leftDepth, rightDepth, data0, data1, data2, data3, left, right, di);
    }

    /** One look-up for a dyadic interval of any power. */
    method LogSignatureImpl(interval: DyadicInterval) returns (lie: T)
      requires Valid()
      ensures lie == TotalOver(m, grains, interval)
    {
      hide Smallest, TotalOver;
      var dil := SmallestContaining(interval);
      assert AnswersAt(m, grains, resolution, data, interval);
      TotalOfSmallest(m, grains, resolution, interval);
      if dil.Some? {
        return data[dil.value];
      }
      return m.one;
    }

    /** Any other interval is dissected at the resolution of the query, and the answers of the
        pieces are multiplied up. */
    method LogSignature(inf: real, sup: real, r: int) returns (lie: T, ghost products: nat)
      requires Valid() && inf <= sup
      ensures lie == QueryTotal(m, grains, inf, sup, r) && FloorAt(inf, r) <= FloorAt(sup, r)
      ensures products == 0 || products < |Pieces(FloorAt(inf, r), FloorAt(sup, r), r)|
      ensures r >= 1 && InUnit(FloorAt(inf, r), FloorAt(sup, r), r) ==> products <= 2 * r - 1
    {
      hide Answers, Totals, QueryTotal, Pieces;
      var dissection := ToDyadicIntervals(inf, sup, r);
      var lies := LookUpAll(dissection);
      lie, products := Cbh(m, lies);
      NonOnesBound(m, lies);
      QueryFromPieces(m, grains, inf, sup, r);
      ghost var b, e := FloorAt(inf, r), FloorAt(sup, r);
      if r >= 1 && InUnit(b, e, r) {
        ghost var unit :| Shift(unit, r) <= b && e <= Shift(unit + 1, r);
        PiecesPerUnitQuery(b, e, r, unit);
      }
    }

    method LookUpAll(dissection: seq<DyadicInterval>) returns (lies: seq<T>)
      requires Valid()
      ensures lies == Totals(m, grains, dissection) && |lies| == |dissection|
    {
      hide Answers, TotalOver;
      lies := [];
      for i := 0 to |dissection|
        invariant |lies| == i
        invariant forall j :: 0 <= j < i ==> lies[j] == TotalOver(m, grains, dissection[j])
      {
        var lie := LogSignatureImpl(dissection[i]);
        lies := lies + [lie];
      }
    }

    /** Whether the rounded interval holds no grain of the stream. */
    method IsEmpty(inf: real, sup: real) returns (empty: bool)
      requires Valid() && inf <= sup
      ensures FloorAt(inf, resolution) <= FloorAt(sup, resolution)
      ensures empty <==> !EventBetween(granularTimes, FloorAt(inf, resolution), FloorAt(sup, resolution), resolution)
    {
      hide Answers, EventBetween, Smallest, HasEvent;
      var dissection := ToDyadicIntervals(inf, sup, resolution);
      ghost var b, e := FloorAt(inf, resolution), FloorAt(sup, resolution);
      for i := 0 to |dissection|
        invariant forall j :: 0 <= j < i ==> !HasEvent(granularTimes, dissection[j])
      {
        SmallestHoldsEvents(granularTimes, resolution, dissection[i]);
        var found := SmallestContaining(dissection[i]);
        if found.Some? {
          PieceShowsEvent(granularTimes, b, e, resolution, i);
          return false;
        }
      }
      if EventBetween(granularTimes, b, e, resolution) {
        ghost var j := EventShowsPiece(granularTimes, b, e, resolution);
      }
      return true;
    }
  }
}
