/** The invariant of the tick stream's index while it is being built, and its steps. */
module TickTree {
  import opened Wrappers
  import opened Dyadics
  import opened DyadicIntervals
  import opened Monoids
  import opened Timeline
  import opened TickIndex

  /** A query on d finds its answer among the keys. */
  ghost predicate IndexedAt(keys: set<DyadicInterval>, times: seq<real>, res: int, d: DyadicInterval)
    requires Granular(times, res)
  {
    Smallest(times, res, d).Some? ==> Smallest(times, res, d).value in keys
  }

  /** So does every query inside d, at any power. */
  ghost predicate Indexed(keys: set<DyadicInterval>, times: seq<real>, res: int, d: DyadicInterval)
    requires Granular(times, res)
  {
    forall q: DyadicInterval {:trigger IndexedAt(keys, times, res, q)} ::
      d.ContainsDyadic(q) ==> IndexedAt(keys, times, res, q)
  }

  /** A key is finished: its value is the ordered product of what lies in it, and everything
      below it is indexed. */
  ghost predicate Finished<T>(m: Monoid<T>, grains: seq<(real, T)>, res: int, data: map<DyadicInterval, T>,
                              k: DyadicInterval)
    requires Granular(Times(grains), res)
  {
    k in data && data[k] == TotalOver(m, grains, k) && Indexed(data.Keys, Times(grains), res, k)
  }

  ghost predicate FinishedBelow<T>(m: Monoid<T>, grains: seq<(real, T)>, res: int, data: map<DyadicInterval, T>,
                                   d: DyadicInterval)
    requires Granular(Times(grains), res)
  {
    forall k: DyadicInterval :: k in data && d.ContainsDyadic(k) ==> Finished(m, grains, res, data, k)
  }

  ghost predicate AllFinished<T>(m: Monoid<T>, grains: seq<(real, T)>, res: int, data: map<DyadicInterval, T>)
    requires Granular(Times(grains), res)
  {
    forall k: DyadicInterval :: k in data ==> Finished(m, grains, res, data, k)
  }

  /** Keys are never dropped, and nothing outside d is touched. */
  ghost predicate OnlyBelow<T>(data: map<DyadicInterval, T>, data': map<DyadicInterval, T>, d: DyadicInterval) {
    && data.Keys <= data'.Keys
    && forall k: DyadicInterval :: !d.ContainsDyadic(k) ==> SameAt(data, data', k)
  }

  ghost predicate SameAt<T>(data: map<DyadicInterval, T>, data': map<DyadicInterval, T>, k: DyadicInterval) {
    (k in data <==> k in data') && (k in data ==> data'[k] == data[k])
  }

  lemma IndexedMono(keys: set<DyadicInterval>, keys': set<DyadicInterval>, times: seq<real>, res: int,
                    d: DyadicInterval)
    requires Granular(times, res) && keys <= keys' && Indexed(keys, times, res, d)
    ensures Indexed(keys', times, res, d)
  {
    forall q: DyadicInterval | d.ContainsDyadic(q)
      ensures IndexedAt(keys', times, res, q)
    {
      assert IndexedAt(keys, times, res, q);
    }
  }

  /** The smallest interval answers for everything around it that holds no other event. */
  lemma IndexedAbove(keys: set<DyadicInterval>, times: seq<real>, res: int, d: DyadicInterval)
    requires Granular(times, res) && d.power <= res && Smallest(times, res, d).Some?
    requires Smallest(times, res, d).value in keys && Indexed(keys, times, res, Smallest(times, res, d).value)
    ensures Indexed(keys, times, res, d)
  {
    var p := Smallest(times, res, d).value;
    SmallestOfSmallest(times, res, d);
    forall q: DyadicInterval | d.ContainsDyadic(q)
      ensures IndexedAt(keys, times, res, q)
    {
      SmallestHoldsEvents(times, res, q);
      if HasEvent(times, q) {
        var i :| 0 <= i < |times| && EventIn(times[i], q);
        ContainsEvents(d, q, times[i]);
        MeetingNested(p, q, times[i]);
        if !p.ContainsDyadic(q) {
          EventsBetween(times, d, q, p);
          SmallestSameEvents(times, res, d, q);
        }
      }
    }
  }

  lemma EventsBetween(times: seq<real>, d: DyadicInterval, q: DyadicInterval, p: DyadicInterval)
    requires d.ContainsDyadic(q) && q.ContainsDyadic(p)
    requires forall i :: 0 <= i < |times| ==> (EventIn(times[i], d) <==> EventIn(times[i], p))
    ensures forall i :: 0 <= i < |times| ==> (EventIn(times[i], d) <==> EventIn(times[i], q))
  {
    forall i | 0 <= i < |times|
      ensures EventIn(times[i], d) <==> EventIn(times[i], q)
    {
      ContainsIsInclusion(d, q);
      ContainsIsInclusion(q, p);
    }
  }

  lemma IndexedFromHalves(keys: set<DyadicInterval>, times: seq<real>, res: int, p: DyadicInterval)
    requires Granular(times, res) && p in keys && Smallest(times, res, p) == Some(p)
    requires Indexed(keys, times, res, p.LeftHalf()) && Indexed(keys, times, res, p.RightHalf())
    ensures Indexed(keys, times, res, p)
  {
    forall q: DyadicInterval | p.ContainsDyadic(q)
      ensures IndexedAt(keys, times, res, q)
    {
      InOneHalf(p, q);
    }
  }

  lemma IndexedGrain(keys: set<DyadicInterval>, times: seq<real>, res: int, g: DyadicInterval)
    requires Granular(times, res) && g in keys && g.power == res
    ensures Indexed(keys, times, res, g)
  {
    forall q: DyadicInterval | g.ContainsDyadic(q)
      ensures IndexedAt(keys, times, res, q)
    {
      SmallestHoldsEvents(times, res, q);
      if HasEvent(times, q) {
        SmallestOfFine(times, res, g, q);
      }
    }
  }

  /** Finished keys stay finished when more keys are added elsewhere. */
  lemma FinishedStays<T>(m: Monoid<T>, grains: seq<(real, T)>, res: int,
                         data: map<DyadicInterval, T>, data': map<DyadicInterval, T>, k: DyadicInterval)
    requires Granular(Times(grains), res) && Finished(m, grains, res, data, k)
    requires data.Keys <= data'.Keys && data'[k] == data[k]
    ensures Finished(m, grains, res, data', k)
  {
    IndexedMono(data.Keys, data'.Keys, Times(grains), res, k);
  }

  lemma TotalOfSmallest<T>(m: Monoid<T>, grains: seq<(real, T)>, res: int, d: DyadicInterval)
    requires Granular(Times(grains), res)
    ensures Smallest(Times(grains), res, d).Some? ==>
              TotalOver(m, grains, d) == TotalOver(m, grains, Smallest(Times(grains), res, d).value)
    ensures Smallest(Times(grains), res, d).None? ==> TotalOver(m, grains, d) == m.one
  {
    var times := Times(grains);
    SmallestHoldsEvents(times, res, d);
    if Smallest(times, res, d).Some? {
      var p := Smallest(times, res, d).value;
      SmallestEvents(times, res, d);
      forall i | 0 <= i < |grains|
        ensures EventIn(grains[i].0, d) <==> EventIn(grains[i].0, p)
      {
        assert grains[i].0 == times[i];
      }
      BetweenSame(grains, d.IncludedEnd().Real(), d.ExcludedEnd().Real(), p.IncludedEnd().Real(),
                  p.ExcludedEnd().Real());
    } else {
      forall i | 0 <= i < |grains|
        ensures !EventIn(grains[i].0, d)
      {
        assert grains[i].0 == times[i];
      }
      BetweenEmpty(grains, d.IncludedEnd().Real(), d.ExcludedEnd().Real());
    }
  }

  /** The events of the smallest interval are the events of d, at any power of d. */
  lemma SmallestEvents(times: seq<real>, res: int, d: DyadicInterval)
    requires Granular(times, res) && Smallest(times, res, d).Some?
    ensures forall i :: 0 <= i < |times| ==>
              (EventIn(times[i], d) <==> EventIn(times[i], Smallest(times, res, d).value))
  {
    if d.power <= res {
      SmallestOfSmallest(times, res, d);
    } else {
      var p := Smallest(times, res, d).value;
      SmallestHoldsEvents(times, res, d);
      EventRange(times, d);
      var f := First(times, d);
      MeetingNested(GrainOf(times[f], res), d, times[f]) by {
        RealOrderAtPower(FloorAt(times[f], res), FloorAt(times[f], res) + 1, res);
      }
      SmallestOfFine(times, res, GrainOf(times[f], res), d);
      forall i | 0 <= i < |times| && EventIn(times[i], p)
        ensures EventIn(times[i], d)
      {
        GrainEvent(times, res, p, i);
      }
    }
  }

  /** What holds just before the first half is built. */
  lemma BeforeHalf<T>(m: Monoid<T>, grains: seq<(real, T)>, res: int, di: DyadicInterval, p: DyadicInterval,
                      half: DyadicInterval,
                      data0: map<DyadicInterval, T>, data1: map<DyadicInterval, T>)
    requires Granular(Times(grains), res) && di.ContainsDyadic(p)
    requires FinishedBelow(m, grains, res, data0, di)
    requires half == p.LeftHalf() || half == p.RightHalf()
    requires data0.Keys <= data1.Keys
    requires forall k: DyadicInterval :: half.ContainsDyadic(k) ==> SameAt(data0, data1, k)
    ensures FinishedBelow(m, grains, res, data1, half)
  {
    forall k: DyadicInterval | k in data1 && half.ContainsDyadic(k)
      ensures Finished(m, grains, res, data1, k)
    {
      HalvesInside(p, k);
      ContainsTransitive(di, p, k);
      assert SameAt(data0, data1, k);
      assert Finished(m, grains, res, data0, k);
      FinishedStays(m, grains, res, data0, data1, k);
    }
  }

  /** A node is finished once both of its halves are. */
  lemma NodeFinished<T(!new)>(m: Monoid<T>, grains: seq<(real, T)>, res: int, di: DyadicInterval, p: DyadicInterval,
                              data0: map<DyadicInterval, T>, data1: map<DyadicInterval, T>,
                              data2: map<DyadicInterval, T>, data3: map<DyadicInterval, T>,
                                  data4: map<DyadicInterval, T>)
    requires Lawful(m) && Sorted(grains) && Granular(Times(grains), res)
    requires di.power <= res && Smallest(Times(grains), res, di) == Some(p)
    requires FinishedBelow(m, grains, res, data0, di)
    requires data0.Keys <= data1.Keys && forall k: DyadicInterval :: k != p ==> SameAt(data0, data1, k)
    requires OnlyBelow(data1, data2, p.LeftHalf()) && FinishedBelow(m, grains, res, data2, p.LeftHalf())
    requires OnlyBelow(data2, data3, p.RightHalf()) && FinishedBelow(m, grains, res, data3, p.RightHalf())
    requires Indexed(data2.Keys, Times(grains), res, p.LeftHalf())
    requires Indexed(data3.Keys, Times(grains), res, p.RightHalf())
    requires p in data1 && data4 == data3[p := TotalOver(m, grains, p)]
    ensures OnlyBelow(data0, data4, di)
    ensures FinishedBelow(m, grains, res, data4, di)
    ensures Indexed(data4.Keys, Times(grains), res, di)
  {
    SmallestInside(Times(grains), res, di);
    NodeIndexed(Times(grains), res, di, p, data2.Keys, data3.Keys, data4.Keys);
    NodeOnlyBelow(di, p, data0, data1, data2, data3, data4, TotalOver(m, grains, p));
    NodeFinishedBelow(m, grains, res, di, p, data0, data1, data2, data3, data4);
  }

  lemma NodeOnlyBelow<T>(di: DyadicInterval, p: DyadicInterval,
                         data0: map<DyadicInterval, T>, data1: map<DyadicInterval, T>,
                         data2: map<DyadicInterval, T>, data3: map<DyadicInterval, T>, data4: map<DyadicInterval, T>,
                             v: T)
    requires di.ContainsDyadic(p)
    requires data0.Keys <= data1.Keys && forall k: DyadicInterval :: k != p ==> SameAt(data0, data1, k)
    requires OnlyBelow(data1, data2, p.LeftHalf()) && OnlyBelow(data2, data3, p.RightHalf())
    requires data4 == data3[p := v]
    ensures OnlyBelow(data0, data4, di)
  {
    forall k: DyadicInterval | !di.ContainsDyadic(k)
      ensures SameAt(data0, data4, k)
    {
      OutsideUntouched(di, p, data0, data1, data2, data3, data4, v, k);
    }
  }

  lemma NodeFinishedBelow<T(!new)>(m: Monoid<T>, grains: seq<(real, T)>, res: int, di: DyadicInterval,
                                   p: DyadicInterval,
                                   data0: map<DyadicInterval, T>, data1: map<DyadicInterval, T>,
                                   data2: map<DyadicInterval, T>, data3: map<DyadicInterval, T>,
                                       data4: map<DyadicInterval, T>)
    requires Granular(Times(grains), res) && di.ContainsDyadic(p)
    requires FinishedBelow(m, grains, res, data0, di)
    requires data0.Keys <= data1.Keys && forall k: DyadicInterval :: k != p ==> SameAt(data0, data1, k)
    requires OnlyBelow(data1, data2, p.LeftHalf()) && FinishedBelow(m, grains, res, data2, p.LeftHalf())
    requires OnlyBelow(data2, data3, p.RightHalf()) && FinishedBelow(m, grains, res, data3, p.RightHalf())
    requires p in data3 && data4 == data3[p := TotalOver(m, grains, p)]
    requires Indexed(data4.Keys, Times(grains), res, p)
    ensures FinishedBelow(m, grains, res, data4, di)
  {
    forall k: DyadicInterval | k in data4 && di.ContainsDyadic(k)
      ensures Finished(m, grains, res, data4, k)
    {
      NodeFinishedAt(m, grains, res, di, p, data0, data1, data2, data3, data4, k);
    }
  }

  lemma NodeIndexed(times: seq<real>, res: int, di: DyadicInterval, p: DyadicInterval,
                    keys2: set<DyadicInterval>, keys3: set<DyadicInterval>, keys4: set<DyadicInterval>)
    requires Granular(times, res) && di.power <= res && Smallest(times, res, di) == Some(p)
    requires keys2 <= keys4 && keys3 <= keys4 && p in keys4
    requires Indexed(keys2, times, res, p.LeftHalf()) && Indexed(keys3, times, res, p.RightHalf())
    ensures Indexed(keys4, times, res, p) && Indexed(keys4, times, res, di)
  {
    SmallestOfSmallest(times, res, di);
    IndexedMono(keys2, keys4, times, res, p.LeftHalf());
    IndexedMono(keys3, keys4, times, res, p.RightHalf());
    IndexedFromHalves(keys4, times, res, p);
    IndexedAbove(keys4, times, res, di);
  }

  lemma OutsideUntouched<T>(di: DyadicInterval, p: DyadicInterval,
                            data0: map<DyadicInterval, T>, data1: map<DyadicInterval, T>,
                            data2: map<DyadicInterval, T>, data3: map<DyadicInterval, T>, data4: map<DyadicInterval, T>,
                            v: T, k: DyadicInterval)
    requires di.ContainsDyadic(p) && !di.ContainsDyadic(k)
    requires forall k: DyadicInterval :: k != p ==> SameAt(data0, data1, k)
    requires OnlyBelow(data1, data2, p.LeftHalf()) && OnlyBelow(data2, data3, p.RightHalf())
    requires data4 == data3[p := v]
    ensures SameAt(data0, data4, k)
  {
    if p.ContainsDyadic(k) {
      ContainsTransitive(di, p, k);
    }
    HalvesInside(p, k);
    ContainsItself(p);
    assert SameAt(data0, data1, k) && SameAt(data1, data2, k) && SameAt(data2, data3, k);
  }

  lemma NodeFinishedAt<T(!new)>(m: Monoid<T>, grains: seq<(real, T)>, res: int, di: DyadicInterval, p: DyadicInterval,
                                data0: map<DyadicInterval, T>, data1: map<DyadicInterval, T>,
                                data2: map<DyadicInterval, T>, data3: map<DyadicInterval, T>,
                                    data4: map<DyadicInterval, T>,
                                k: DyadicInterval)
    requires Granular(Times(grains), res) && di.ContainsDyadic(p)
    requires FinishedBelow(m, grains, res, data0, di)
    requires data0.Keys <= data1.Keys && forall k: DyadicInterval :: k != p ==> SameAt(data0, data1, k)
    requires OnlyBelow(data1, data2, p.LeftHalf()) && FinishedBelow(m, grains, res, data2, p.LeftHalf())
    requires OnlyBelow(data2, data3, p.RightHalf()) && FinishedBelow(m, grains, res, data3, p.RightHalf())
    requires p in data3 && data4 == data3[p := TotalOver(m, grains, p)]
    requires Indexed(data4.Keys, Times(grains), res, p)
    requires k in data4 && di.ContainsDyadic(k)
    ensures Finished(m, grains, res, data4, k)
  {
    HalvesInside(p, k);
    if k == p {
    } else if p.LeftHalf().ContainsDyadic(k) {
      assert SameAt(data2, data3, k);
      FinishedStays(m, grains, res, data2, data4, k);
    } else if p.RightHalf().ContainsDyadic(k) {
      FinishedStays(m, grains, res, data3, data4, k);
    } else {
      assert SameAt(data0, data1, k) && SameAt(data1, data2, k) && SameAt(data2, data3, k);
      FinishedStays(m, grains, res, data0, data4, k);
    }
  }
}
