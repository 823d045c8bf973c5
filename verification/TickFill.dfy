/** Collecting raw ticks into grains: several ticks in one grain multiply up in arrival order. */
module TickFill {
  import opened Powers
  import opened Dyadics
  import opened DyadicIntervals
  import opened Monoids
  import opened Timeline
  import opened TickIndex

  function StartOf(t: real, res: int): real {
    GrainOf(t, res).IncludedEnd().Real()
  }

  /** One more tick for the grain that starts at `time`. */
  function AddTick<T>(m: Monoid<T>, grains: seq<(real, T)>, time: real, v: T): seq<(real, T)> {
    if grains == [] || time < grains[0].0 then [(time, v)] + grains
    else if grains[0].0 == time then [(time, m.mul(grains[0].1, v))] + grains[1..]
    else [grains[0]] + AddTick(m, grains[1..], time, v)
  }

  function Grains<T>(m: Monoid<T>, ticks: seq<(real, T)>, res: int): seq<(real, T)> {
    if ticks == [] then []
    else
      var last := ticks[|ticks| - 1];
      AddTick(m, Grains(m, ticks[..|ticks| - 1], res), StartOf(last.0, res), last.1)
  }

  /** `std::set::insert` on the sorted starts. */
  function InsertTime(times: seq<real>, x: real): seq<real> {
    if times == [] || x < times[0] then [x] + times
    else if times[0] == x then times
    else [times[0]] + InsertTime(times[1..], x)
  }

  lemma {:induction false} AddTickTimes<T>(m: Monoid<T>, grains: seq<(real, T)>, time: real, v: T)
    ensures Times(AddTick(m, grains, time, v)) == InsertTime(Times(grains), time)
    decreases |grains|
  {
    if grains == [] || time < grains[0].0 {
      assert Times([(time, v)] + grains) == [time] + Times(grains);
    } else {
      assert Times(grains) == [grains[0].0] + Times(grains[1..]);
      if grains[0].0 == time {
        var g := [(time, m.mul(grains[0].1, v))] + grains[1..];
        assert Times(g) == [time] + Times(grains[1..]);
      } else {
        AddTickTimes(m, grains[1..], time, v);
        assert Times(AddTick(m, grains, time, v)) == [grains[0].0] + Times(AddTick(m, grains[1..], time, v));
      }
    }
  }

  lemma {:induction false} InsertTimeMembers(times: seq<real>, x: real)
    requires Increasing(times)
    ensures Increasing(InsertTime(times, x))
    ensures forall t :: t in InsertTime(times, x) <==> t == x || t in times
    decreases |times|
  {
    if times == [] || x < times[0] {
    } else if times[0] != x {
      InsertTimeMembers(times[1..], x);
      var rest := InsertTime(times[1..], x);
      forall i | 0 <= i < |rest|
        ensures times[0] < rest[i]
      {
        assert rest[i] in rest;
      }
    }
  }

  lemma StartIsFixed(t: real, res: int)
    ensures GrainOf(StartOf(t, res), res) == GrainOf(t, res)
    ensures EventIn(StartOf(t, res), GrainOf(t, res)) && EventIn(t, GrainOf(t, res))
  {
    var k := FloorAt(t, res);
    FloorAtHolds(t, res);
    FloorAtHolds(StartOf(t, res), res);
    var k' := FloorAt(StartOf(t, res), res);
    RealOrderAtPower(k, k', res);
    RealOrderAtPower(k', k, res);
    RealOrderAtPower(k, k' + 1, res);
    RealOrderAtPower(k, k + 1, res);
  }

  lemma SortedIsIncreasing<T>(grains: seq<(real, T)>)
    ensures Sorted(grains) <==> Increasing(Times(grains))
  {
    if Increasing(Times(grains)) {
      forall i, j | 0 <= i < j < |grains|
        ensures grains[i].0 < grains[j].0
      {
        assert Times(grains)[i] < Times(grains)[j];
      }
    }
  }

  /** The starts are increasing, and are the grain starts of the ticks. */
  lemma {:induction false} GrainsGranular<T>(m: Monoid<T>, ticks: seq<(real, T)>, res: int)
    ensures Sorted(Grains(m, ticks, res)) && Granular(Times(Grains(m, ticks, res)), res)
    ensures forall x :: x in Times(Grains(m, ticks, res)) <==>
                        exists i :: 0 <= i < |ticks| && StartOf(ticks[i].0, res) == x
    decreases |ticks|
  {
    var times := Times(Grains(m, ticks, res));
    if ticks != [] {
      var n := |ticks| - 1;
      var front := ticks[..n];
      GrainsGranular(m, front, res);
      AddTickTimes(m, Grains(m, front, res), StartOf(ticks[n].0, res), ticks[n].1);
      InsertTimeMembers(Times(Grains(m, front, res)), StartOf(ticks[n].0, res));
      forall x
        ensures x in times <==> exists i :: 0 <= i < |ticks| && StartOf(ticks[i].0, res) == x
      {
        if i :| 0 <= i < |ticks| && StartOf(ticks[i].0, res) == x {
          assert i < n ==> StartOf(front[i].0, res) == x;
        }
        if x in Times(Grains(m, front, res)) {
          var i :| 0 <= i < n && StartOf(front[i].0, res) == x;
          assert StartOf(ticks[i].0, res) == x;
        }
        assert StartOf(ticks[n].0, res) == x ==> x in times;
      }
    }
    forall i | 0 <= i < |times|
      ensures times[i] == GrainOf(times[i], res).IncludedEnd().Real()
    {
      assert times[i] in times;
      var j :| 0 <= j < |ticks| && StartOf(ticks[j].0, res) == times[i];
      StartIsFixed(ticks[j].0, res);
    }
    SortedIsIncreasing(Grains(m, ticks, res));
  }

  // ----- the totals are products of ticks -----

  /** The ticks whose grain starts in [lo, hi), in arrival order. */
  function TicksIn<T>(ticks: seq<(real, T)>, res: int, lo: real, hi: real): seq<T> {
    if ticks == [] then []
    else
      var last := ticks[|ticks| - 1];
      TicksIn(ticks[..|ticks| - 1], res, lo, hi)
      + (if lo <= StartOf(last.0, res) < hi then [last.1] else [])
  }

  /** What one more tick does to a total: at the end if no later grain is in range. */
  lemma {:induction false} AddTickTotal<T(!new)>(m: Monoid<T>, grains: seq<(real, T)>, time: real, v: T, lo: real,
                                                 hi: real)
    requires Lawful(m) && Sorted(grains)
    requires forall i :: 0 <= i < |grains| && time < grains[i].0 ==> !(lo <= grains[i].0 < hi)
    ensures Total(m, AddTick(m, grains, time, v), lo, hi)
         == if lo <= time < hi then m.mul(Total(m, grains, lo, hi), v) else Total(m, grains, lo, hi)
    decreases |grains|
  {
    var added := AddTick(m, grains, time, v);
    if grains == [] || time < grains[0].0 {
      BetweenEmpty(grains, lo, hi);
      assert added[1..] == grains;
      assert UnitAt(m, v);
      assert Between(added, lo, hi) == if lo <= time < hi then [v] else [];
      ProductOne(m, v);
    } else {
      if grains[0].0 == time {
        BetweenEmpty(grains[1..], lo, hi);
        assert added[1..] == grains[1..];
        ProductOne(m, grains[0].1);
        ProductOne(m, m.mul(grains[0].1, v));
        assert Between(grains, lo, hi) == if lo <= time < hi then [grains[0].1] else [];
        assert Between(added, lo, hi) == if lo <= time < hi then [m.mul(grains[0].1, v)] else [];
      } else {
        assert added[1..] == AddTick(m, grains[1..], time, v) && added[0] == grains[0];
        AddTickTotal(m, grains[1..], time, v, lo, hi);
        HeadTotal(m, grains, lo, hi);
        HeadTotal(m, added, lo, hi);
        assert AssociativeAt(m, grains[0].1, Total(m, grains[1..], lo, hi), v);
      }
    }
  }

  lemma HeadTotal<T>(m: Monoid<T>, grains: seq<(real, T)>, lo: real, hi: real)
    requires grains != []
    ensures Total(m, grains, lo, hi)
         == if lo <= grains[0].0 < hi then m.mul(grains[0].1, Total(m, grains[1..], lo, hi))
            else Total(m, grains[1..], lo, hi)
  {
    var rest := Between(grains[1..], lo, hi);
    if lo <= grains[0].0 < hi {
      assert ([grains[0].1] + rest)[1..] == rest;
    } else {
      assert [] + rest == rest;
    }
  }

  lemma TicksStep<T(!new)>(m: Monoid<T>, ticks: seq<(real, T)>, res: int, lo: real, hi: real)
    requires Lawful(m) && ticks != []
    ensures Product(m, TicksIn(ticks, res, lo, hi))
         == if lo <= StartOf(ticks[|ticks| - 1].0, res) < hi
            then m.mul(Product(m, TicksIn(ticks[..|ticks| - 1], res, lo, hi)), ticks[|ticks| - 1].1)
            else Product(m, TicksIn(ticks[..|ticks| - 1], res, lo, hi))
  {
    var front, v := TicksIn(ticks[..|ticks| - 1], res, lo, hi), ticks[|ticks| - 1].1;
    ProductConcat(m, front, [v]);
    ProductOne(m, v);
    assert front + [] == front;
  }

  /** A grain holds the product of its ticks in arrival order, whatever order the times come in. */
  lemma {:induction false} GrainHoldsItsTicks<T(!new)>(m: Monoid<T>, ticks: seq<(real, T)>, res: int, g: DyadicInterval)
    requires Lawful(m) && g.power == res
    ensures TotalOver(m, Grains(m, ticks, res), g)
         == Product(m, TicksIn(ticks, res, g.IncludedEnd().Real(), g.ExcludedEnd().Real()))
    decreases |ticks|
  {
    var lo, hi := g.IncludedEnd().Real(), g.ExcludedEnd().Real();
    if ticks != [] {
      var n := |ticks| - 1;
      var front := Grains(m, ticks[..n], res);
      var time := StartOf(ticks[n].0, res);
      GrainHoldsItsTicks(m, ticks[..n], res, g);
      GrainsGranular(m, ticks[..n], res);
      StartIsFixed(ticks[n].0, res);
      if lo <= time < hi {
        StartInGrain(g, ticks[n].0, res);
        forall i | 0 <= i < |front| && time < front[i].0
          ensures !(lo <= front[i].0 < hi)
        {
          assert Times(front)[i] == front[i].0;
          if lo <= front[i].0 < hi {
            GrainEvent(Times(front), res, g, i);
          }
        }
        AddTickTotal(m, front, time, ticks[n].1, lo, hi);
      } else {
        AddTickElsewhere(m, front, time, ticks[n].1, lo, hi);
      }
      TicksStep(m, ticks, res, lo, hi);
    }
  }

  lemma StartInGrain(g: DyadicInterval, t: real, res: int)
    requires g.power == res && EventIn(StartOf(t, res), g)
    ensures g == GrainOf(t, res)
  {
    var k := FloorAt(t, res);
    RealOrderAtPower(k, g.multiplier, res);
    RealOrderAtPower(k, g.multiplier + 1, res);
  }

  lemma {:induction false} AddTickElsewhere<T>(m: Monoid<T>, grains: seq<(real, T)>, time: real, v: T, lo: real,
                                               hi: real)
    requires !(lo <= time < hi)
    ensures Between(AddTick(m, grains, time, v), lo, hi) == Between(grains, lo, hi)
    decreases |grains|
  {
    var added := AddTick(m, grains, time, v);
    if grains == [] || time < grains[0].0 {
      assert added[1..] == grains;
    } else if grains[0].0 == time {
      assert added[1..] == grains[1..];
    } else {
      assert added[1..] == AddTick(m, grains[1..], time, v);
      AddTickElsewhere(m, grains[1..], time, v, lo, hi);
    }
  }

  ghost predicate InTimeOrder<T>(ticks: seq<(real, T)>) {
    forall i, j :: 0 <= i <= j < |ticks| ==> ticks[i].0 <= ticks[j].0
  }

  /** In time order the last tick's grain is not before any other. */
  lemma LastIsLatest<T>(m: Monoid<T>, ticks: seq<(real, T)>, res: int)
    requires InTimeOrder(ticks) && ticks != []
    ensures var front := Grains(m, ticks[..|ticks| - 1], res);
            forall i :: 0 <= i < |front| ==> front[i].0 <= StartOf(ticks[|ticks| - 1].0, res)
  {
    var n := |ticks| - 1;
    var front := Grains(m, ticks[..n], res);
    GrainsGranular(m, ticks[..n], res);
    forall i | 0 <= i < |front|
      ensures front[i].0 <= StartOf(ticks[n].0, res)
    {
      assert Times(front)[i] == front[i].0 && Times(front)[i] in Times(front);
      var j :| 0 <= j < n && StartOf(ticks[..n][j].0, res) == front[i].0;
      FloorAtMono(ticks[j].0, ticks[n].0, res);
      RealOrderAtPower(FloorAt(ticks[n].0, res), FloorAt(ticks[j].0, res), res);
    }
  }

  /** For ticks in time order every total is the product of its ticks in time order. */
  lemma {:induction false} TotalIsTicks<T(!new)>(m: Monoid<T>, ticks: seq<(real, T)>, res: int, lo: real, hi: real)
    requires Lawful(m) && InTimeOrder(ticks)
    ensures Total(m, Grains(m, ticks, res), lo, hi) == Product(m, TicksIn(ticks, res, lo, hi))
    decreases |ticks|
  {
    if ticks != [] {
      var n := |ticks| - 1;
      var front := Grains(m, ticks[..n], res);
      var time := StartOf(ticks[n].0, res);
      TotalIsTicks(m, ticks[..n], res, lo, hi);
      GrainsGranular(m, ticks[..n], res);
      LastIsLatest(m, ticks, res);
      hide Grains;
      AddTickTotal(m, front, time, ticks[n].1, lo, hi);
      TicksStep(m, ticks, res, lo, hi);
    }
  }

  /** Between grain ends a tick is counted exactly if its own time is. */
  lemma StartInRange(t: real, res: int, lo: int, hi: int)
    ensures Dyadic(lo, res).Real() <= StartOf(t, res) < Dyadic(hi, res).Real() <==>
            Dyadic(lo, res).Real() <= t < Dyadic(hi, res).Real()
  {
    var k := FloorAt(t, res);
    FloorAtHolds(t, res);
    RealOrderAtPower(k, lo, res);
    RealOrderAtPower(k, hi, res);
    RealOrderAtPower(k + 1, lo, res);
    RealOrderAtPower(k + 1, hi, res);
    RealOrderAtPower(lo, k + 1, res);
    RealOrderAtPower(hi, k + 1, res);
  }

  lemma {:induction false} TicksByTime<T>(ticks: seq<(real, T)>, res: int, lo: int, hi: int)
    ensures TicksIn(ticks, res, Dyadic(lo, res).Real(), Dyadic(hi, res).Real())
         == Between(ticks, Dyadic(lo, res).Real(), Dyadic(hi, res).Real())
    decreases |ticks|
  {
    var a, b := Dyadic(lo, res).Real(), Dyadic(hi, res).Real();
    if ticks != [] {
      var front, last := ticks[..|ticks| - 1], ticks[|ticks| - 1];
      TicksByTime(front, res, lo, hi);
      StartInRange(last.0, res, lo, hi);
      assert ticks == front + [last];
      BetweenConcat(front, [last], a, b);
      BetweenOne(last, a, b);
      hide Between, StartOf;
    }
  }

  lemma BetweenOne<T>(e: (real, T), lo: real, hi: real)
    ensures Between([e], lo, hi) == if lo <= e.0 < hi then [e.1] else []
  {
    assert Between([e][1..], lo, hi) == [];
  }

  /** For ticks in time order a query that is not finer than the stream is the plain product of the
      ticks whose own times lie between its rounded ends. */
  lemma QueryIsTicks<T(!new)>(m: Monoid<T>, ticks: seq<(real, T)>, res: int, inf: real, sup: real, r: int)
    requires Lawful(m) && InTimeOrder(ticks) && r <= res
    ensures QueryTotal(m, Grains(m, ticks, res), inf, sup, r) == QueryTotal(m, ticks, inf, sup, r)
  {
    var b, e := FloorAt(inf, r), FloorAt(sup, r);
    RealShift(b, r, res - r);
    RealShift(e, r, res - r);
    TotalIsTicks(m, ticks, res, Dyadic(b, r).Real(), Dyadic(e, r).Real());
    TicksByTime(ticks, res, Shift(b, res - r), Shift(e, res - r));
  }

  // ----- the map being filled -----

  /** The map holds exactly the grains. */
  ghost predicate HoldsGrains<T>(grains: seq<(real, T)>, res: int, data: map<DyadicInterval, T>) {
    && (forall i :: 0 <= i < |grains| ==>
          GrainOf(grains[i].0, res) in data && data[GrainOf(grains[i].0, res)] == grains[i].1)
    && (forall k: DyadicInterval :: k in data ==> exists i :: 0 <= i < |grains| && GrainOf(grains[i].0, res) == k)
  }

  lemma EmptyHolds<T>(m: Monoid<T>, res: int)
    ensures HoldsGrains(Grains(m, [], res), res, map[])
    ensures Times(Grains(m, [], res)) == []
  {
  }

  /** Where a tick goes: into a grain that is there, or in front of the first later one. */
  lemma {:induction false} AddTickAt<T>(m: Monoid<T>, grains: seq<(real, T)>, time: real, v: T)
    returns (at: nat, there: bool)
    requires Sorted(grains)
    ensures at <= |grains|
    ensures there ==> at < |grains| && grains[at].0 == time
                      && AddTick(m, grains, time, v) == grains[at := (time, m.mul(grains[at].1, v))]
    ensures !there ==> AddTick(m, grains, time, v) == grains[..at] + [(time, v)] + grains[at..]
    ensures !there ==> forall i :: 0 <= i < |grains| ==> grains[i].0 != time
    decreases |grains|
  {
    if grains == [] || time < grains[0].0 {
      at, there := 0, false;
    } else if grains[0].0 == time {
      at, there := 0, true;
    } else {
      var k, b := AddTickAt(m, grains[1..], time, v);
      at, there := k + 1, b;
      assert AddTick(m, grains, time, v) == [grains[0]] + AddTick(m, grains[1..], time, v);
      hide AddTick, Sorted;
      if there {
        ChangedFurther(grains, k, (time, m.mul(grains[at].1, v)));
      } else {
        AddedFurther(grains, k, (time, v));
        forall i | 0 <= i < |grains|
          ensures grains[i].0 != time
        {
          assert i > 0 ==> grains[i] == grains[1..][i - 1];
        }
      }
    }
  }

  lemma ChangedFurther<E>(s: seq<E>, k: nat, e: E)
    requires k + 1 < |s|
    ensures [s[0]] + s[1..][k := e] == s[k + 1 := e]
  {
  }

  lemma AddedFurther<E>(s: seq<E>, k: nat, e: E)
    requires s != [] && k <= |s[1..]|
    ensures [s[0]] + (s[1..][..k] + [e] + s[1..][k..]) == s[..k + 1] + [e] + s[k + 1..]
  {
  }

  lemma AtIsTheGrain<T>(grains: seq<(real, T)>, res: int, time: real, g: DyadicInterval, at: nat, there: bool)
    requires Sorted(grains) && (there ==> at < |grains| && grains[at].0 == time)
    requires !there ==> forall i :: 0 <= i < |grains| ==> grains[i].0 != time
    requires forall i :: 0 <= i < |grains| ==> (GrainOf(grains[i].0, res) == g <==> grains[i].0 == time)
    ensures forall i :: 0 <= i < |grains| ==> (GrainOf(grains[i].0, res) == g <==> there && i == at)
  {
  }

  lemma HoldsAfterTick<T>(m: Monoid<T>, grains: seq<(real, T)>, res: int, data: map<DyadicInterval, T>, t: real, v: T)
    requires Sorted(grains) && Granular(Times(grains), res) && HoldsGrains(grains, res, data)
    ensures var g := GrainOf(t, res);
            HoldsGrains(AddTick(m, grains, StartOf(t, res), v), res,
                        if g in data then data[g := m.mul(data[g], v)] else data[g := v])
  {
    var g, time := GrainOf(t, res), StartOf(t, res);
    StartIsFixed(t, res);
    var at, there := AddTickAt(m, grains, time, v);
    var added := AddTick(m, grains, time, v);
    forall i | 0 <= i < |grains|
      ensures GrainOf(grains[i].0, res) == g <==> grains[i].0 == time
    {
      assert Times(grains)[i] == grains[i].0;
    }
    AtIsTheGrain(grains, res, time, g, at, there);
    assert there <==> g in data;
    var data' := if g in data then data[g := m.mul(data[g], v)] else data[g := v];
    HoldsAdded(grains, added, res, data, data', at, there, time, g);
  }

  /** A list with one entry replaced, or put in. */
  ghost predicate AddedAt<T>(grains: seq<(real, T)>, added: seq<(real, T)>, at: nat, there: bool, e: (real, T)) {
    && at <= |grains| && (there ==> at < |grains| && grains[at].0 == e.0)
    && added == if there then grains[at := e] else grains[..at] + [e] + grains[at..]
  }

  ghost predicate IsOther<T>(grains: seq<(real, T)>, at: nat, there: bool, e: (real, T)) {
    exists i :: 0 <= i < |grains| && (there ==> i != at) && grains[i] == e
  }

  lemma AddedEntries<T>(grains: seq<(real, T)>, added: seq<(real, T)>, at: nat, there: bool, e: (real, T))
    requires AddedAt(grains, added, at, there, e)
    ensures at < |added| && added[at] == e
    ensures forall i :: 0 <= i < |grains| && (there ==> i != at) ==> grains[i] in added
    ensures forall i :: 0 <= i < |added| && i != at ==> IsOther(grains, at, there, added[i])
  {
    forall i | 0 <= i < |grains| && (there ==> i != at)
      ensures grains[i] in added
    {
      assert added[if there || i < at then i else i + 1] == grains[i];
    }
    forall i | 0 <= i < |added| && i != at
      ensures IsOther(grains, at, there, added[i])
    {
      var i' := if there || i < at then i else i - 1;
      assert grains[i'] == added[i];
    }
  }

  lemma HoldsAdded<T>(grains: seq<(real, T)>, added: seq<(real, T)>, res: int,
                      data: map<DyadicInterval, T>, data': map<DyadicInterval, T>, at: nat, there: bool, time: real,
                          g: DyadicInterval)
    requires HoldsGrains(grains, res, data) && GrainOf(time, res) == g
    requires forall i :: 0 <= i < |grains| ==> (GrainOf(grains[i].0, res) == g <==> there && i == at)
    requires g in data' && data' == data[g := data'[g]]
    requires AddedAt(grains, added, at, there, (time, data'[g]))
    ensures HoldsGrains(added, res, data')
  {
    AddedEntries(grains, added, at, there, (time, data'[g]));
    hide AddedAt;
    forall k: DyadicInterval | k in data'
      ensures exists i :: 0 <= i < |added| && GrainOf(added[i].0, res) == k
    {
      if k != g {
        var i :| 0 <= i < |grains| && GrainOf(grains[i].0, res) == k;
        assert grains[i] in added;
      }
    }
    forall i | 0 <= i < |added|
      ensures GrainOf(added[i].0, res) in data' && data'[GrainOf(added[i].0, res)] == added[i].1
    {
      if i != at {
        assert IsOther(grains, at, there, added[i]);
        var i' :| 0 <= i' < |grains| && (there ==> i' != at) && grains[i'] == added[i];
      }
    }
  }

  /** In the filled map every key is a grain with its own total. */
  lemma GrainTotal<T(!new)>(m: Monoid<T>, grains: seq<(real, T)>, res: int, i: nat)
    requires Lawful(m) && Sorted(grains) && Granular(Times(grains), res) && i < |grains|
    ensures TotalOver(m, grains, GrainOf(grains[i].0, res)) == grains[i].1
  {
    var g := GrainOf(grains[i].0, res);
    var lo, hi := g.IncludedEnd().Real(), g.ExcludedEnd().Real();
    assert Times(grains)[i] == grains[i].0;
    RealOrderAtPower(g.multiplier, g.multiplier + 1, res);
    forall j | 0 <= j < |grains| && j != i
      ensures !(lo <= grains[j].0 < hi)
    {
      assert Times(grains)[j] == grains[j].0;
      if EventIn(grains[j].0, g) {
        GrainEvent(Times(grains), res, g, j);
      }
    }
    BetweenEmpty(grains[..i], lo, hi);
    BetweenEmpty(grains[i + 1..], lo, hi);
    BetweenParts(grains[..i], [grains[i]], grains[i + 1..], lo, hi);
    assert grains == grains[..i] + ([grains[i]] + grains[i + 1..]);
    assert Between([grains[i]], lo, hi) == [grains[i].1];
    ProductOne(m, grains[i].1);
  }
}
