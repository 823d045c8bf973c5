/** The two trees of the index, one on each side of zero. */
module TickRoots {
  import opened Wrappers
  import opened Powers
  import opened Dyadics
  import opened DyadicIntervals
  import opened Monoids
  import opened Timeline
  import opened Dissection
  import opened TickIndex
  import opened TickTree
  import opened TickFill

  /** `std::upper_bound`: the index of the first time that is greater than v. */
  function UpperBound(times: seq<real>, v: real): (i: nat)
    ensures i <= |times|
    ensures forall j :: 0 <= j < i ==> times[j] <= v
    ensures i < |times| ==> times[i] > v
  {
    if times == [] || times[0] > v then 0 else 1 + UpperBound(times[1..], v)
  }

  lemma UpperBoundSeparates(times: seq<real>, v: real)
    requires Increasing(times)
    ensures forall j :: 0 <= j < |times| ==> (j < UpperBound(times, v) <==> times[j] <= v)
  {
    var i := UpperBound(times, v);
    forall j | i < j < |times|
      ensures times[j] > v
    {
      assert times[i] < times[j];
    }
  }

  /** Events on both sides of zero with one of them at zero exactly. */
  predicate StraddlesZero(times: seq<real>) {
    times != [] && times[0] < 0.0 && 0.0 in times
  }

  lemma NegativeSide(times: seq<real>, res: int)
    requires Granular(times, res) && !StraddlesZero(times) && UpperBound(times, 0.0) != 0
    ensures SameSide(FloorAt(times[0], res), FloorAt(times[UpperBound(times, 0.0) - 1], res))
  {
    var last := UpperBound(times, 0.0) - 1;
    SideOfReal(FloorAt(times[0], res), res);
    SideOfReal(FloorAt(times[last], res), res);
    assert times[last] in times;
    assert last > 0 ==> times[0] < times[last];
  }

  lemma PositiveSide(times: seq<real>, res: int)
    requires Granular(times, res) && LowerBound(times, 0.0) < |times|
    ensures SameSide(FloorAt(times[LowerBound(times, 0.0)], res), FloorAt(times[|times| - 1], res))
  {
    var first := LowerBound(times, 0.0);
    SideOfReal(FloorAt(times[first], res), res);
    SideOfReal(FloorAt(times[|times| - 1], res), res);
    assert first < |times| - 1 ==> times[first] < times[|times| - 1];
  }

  function NegativeRoot(times: seq<real>, res: int): Option<DyadicInterval>
    requires Granular(times, res) && !StraddlesZero(times)
  {
    var zeu := UpperBound(times, 0.0);
    if zeu == 0 then None
    else
      NegativeSide(times, res);
      Some(Lca(FloorAt(times[0], res), FloorAt(times[zeu - 1], res), res))
  }

  function PositiveRoot(times: seq<real>, res: int): Option<DyadicInterval>
    requires Granular(times, res)
  {
    var zeu := LowerBound(times, 0.0);
    if zeu == |times| then None
    else
      PositiveSide(times, res);
      Some(Lca(FloorAt(times[zeu], res), FloorAt(times[|times| - 1], res), res))
  }

  /** Every query that meets an event is answered by one look-up. */
  ghost predicate Answers<T>(m: Monoid<T>, grains: seq<(real, T)>, res: int, data: map<DyadicInterval, T>)
    requires Granular(Times(grains), res)
  {
    forall d: DyadicInterval :: AnswersAt(m, grains, res, data, d)
  }

  ghost predicate AnswersAt<T>(m: Monoid<T>, grains: seq<(real, T)>, res: int, data: map<DyadicInterval, T>,
                               d: DyadicInterval)
    requires Granular(Times(grains), res)
  {
    var s := Smallest(Times(grains), res, d);
    s.Some? ==> s.value in data && data[s.value] == TotalOver(m, grains, d)
  }

  // ----- steps of the recursion -----

  lemma NothingBelow(keys: set<DyadicInterval>, times: seq<real>, res: int, d: DyadicInterval)
    requires Granular(times, res) && Smallest(times, res, d).None?
    ensures Indexed(keys, times, res, d)
  {
    SmallestHoldsEvents(times, res, d);
    forall q: DyadicInterval | d.ContainsDyadic(q)
      ensures IndexedAt(keys, times, res, q)
    {
      SmallestHoldsEvents(times, res, q);
      if HasEvent(times, q) {
        var i :| 0 <= i < |times| && EventIn(times[i], q);
        ContainsEvents(d, q, times[i]);
      }
    }
  }

  lemma SameIsOnlyBelow<T>(data: map<DyadicInterval, T>, d: DyadicInterval)
    ensures OnlyBelow(data, data, d)
  {
  }

  lemma FoundIsIndexed<T>(m: Monoid<T>, grains: seq<(real, T)>, res: int, data: map<DyadicInterval, T>,
                          di: DyadicInterval, p: DyadicInterval)
    requires Granular(Times(grains), res) && di.power <= res && Smallest(Times(grains), res, di) == Some(p)
    requires FinishedBelow(m, grains, res, data, di) && p in data
    ensures Indexed(data.Keys, Times(grains), res, di) && data[p] == TotalOver(m, grains, p)
  {
    SmallestInside(Times(grains), res, di);
    assert Finished(m, grains, res, data, p);
    IndexedAbove(data.Keys, Times(grains), res, di);
  }

  /** A node that still holds zero is not a grain. */
  lemma NotAGrain<T>(grains: seq<(real, T)>, res: int, data: map<DyadicInterval, T>, zero: T, di: DyadicInterval,
                     p: DyadicInterval)
    requires Granular(Times(grains), res) && Smallest(Times(grains), res, di) == Some(p)
    requires forall i :: 0 <= i < |grains| ==>
               GrainOf(grains[i].0, res) in data && data[GrainOf(grains[i].0, res)] != zero
    requires p in data && data[p] == zero
    ensures p.power != res
  {
    var times := Times(grains);
    SmallestHoldsEvents(times, res, di);
    var i :| 0 <= i < |times| && EventIn(times[i], di);
    assert times[i] == grains[i].0;
    if p.power == res {
      GrainEvent(times, res, p, i);
    }
  }

  lemma BeforeHalves<T>(m: Monoid<T>, grains: seq<(real, T)>, res: int, di: DyadicInterval, p: DyadicInterval,
                        data0: map<DyadicInterval, T>, v: T, data1: map<DyadicInterval, T>)
    requires Granular(Times(grains), res) && di.ContainsDyadic(p)
    requires FinishedBelow(m, grains, res, data0, di)
    requires data1 == data0 || data1 == data0[p := v]
    ensures data0.Keys <= data1.Keys && forall k: DyadicInterval :: k != p ==> SameAt(data0, data1, k)
    ensures FinishedBelow(m, grains, res, data1, p.LeftHalf())
  {
    forall k: DyadicInterval | p.LeftHalf().ContainsDyadic(k)
      ensures SameAt(data0, data1, k)
    {
      HalvesInside(p, k);
    }
    BeforeHalf(m, grains, res, di, p, p.LeftHalf(), data0, data1);
  }

  lemma BetweenHalves<T>(m: Monoid<T>, grains: seq<(real, T)>, res: int, di: DyadicInterval, p: DyadicInterval,
                         data0: map<DyadicInterval, T>, data1: map<DyadicInterval, T>, data2: map<DyadicInterval, T>)
    requires Granular(Times(grains), res) && di.ContainsDyadic(p)
    requires FinishedBelow(m, grains, res, data0, di)
    requires data0.Keys <= data1.Keys && forall k: DyadicInterval :: k != p ==> SameAt(data0, data1, k)
    requires OnlyBelow(data1, data2, p.LeftHalf())
    ensures FinishedBelow(m, grains, res, data2, p.RightHalf())
  {
    forall k: DyadicInterval | p.RightHalf().ContainsDyadic(k)
      ensures SameAt(data0, data2, k)
    {
      HalvesInside(p, k);
      assert SameAt(data0, data1, k) && SameAt(data1, data2, k);
    }
    BeforeHalf(m, grains, res, di, p, p.RightHalf(), data0, data2);
  }

  // ----- the finished index -----

  lemma FilledIsFinished<T(!new)>(m: Monoid<T>, grains: seq<(real, T)>, res: int, data: map<DyadicInterval, T>)
    requires Lawful(m) && Sorted(grains) && Granular(Times(grains), res) && HoldsGrains(grains, res, data)
    ensures AllFinished(m, grains, res, data)
  {
    forall k: DyadicInterval | k in data
      ensures Finished(m, grains, res, data, k)
    {
      var i :| 0 <= i < |grains| && GrainOf(grains[i].0, res) == k;
      GrainTotal(m, grains, res, i);
      IndexedGrain(data.Keys, Times(grains), res, k);
    }
  }

  lemma FinishedIsBelow<T>(m: Monoid<T>, grains: seq<(real, T)>, res: int, data: map<DyadicInterval, T>,
                           d: DyadicInterval)
    requires Granular(Times(grains), res) && AllFinished(m, grains, res, data)
    ensures FinishedBelow(m, grains, res, data, d)
  {
  }

  lemma OnlyBelowKeys<T>(data: map<DyadicInterval, T>, data': map<DyadicInterval, T>, d: DyadicInterval)
    requires OnlyBelow(data, data', d)
    ensures data.Keys <= data'.Keys
  {
  }

  lemma RootPowers(times: seq<real>, res: int)
    requires Granular(times, res) && !StraddlesZero(times)
    ensures NegativeRoot(times, res).Some? ==> NegativeRoot(times, res).value.power <= res
    ensures PositiveRoot(times, res).Some? ==> PositiveRoot(times, res).value.power <= res
  {
    if NegativeRoot(times, res).Some? {
      NegativeSide(times, res);
      RootHolds(times, res, NegativeRoot(times, res).value, 0, UpperBound(times, 0.0) - 1);
    }
    if PositiveRoot(times, res).Some? {
      PositiveSide(times, res);
      RootHolds(times, res, PositiveRoot(times, res).value, LowerBound(times, 0.0), |times| - 1);
    }
  }

  lemma AllStayFinished<T>(m: Monoid<T>, grains: seq<(real, T)>, res: int,
                           data: map<DyadicInterval, T>, data': map<DyadicInterval, T>, d: DyadicInterval)
    requires Granular(Times(grains), res) && AllFinished(m, grains, res, data)
    requires OnlyBelow(data, data', d) && FinishedBelow(m, grains, res, data', d)
    ensures AllFinished(m, grains, res, data')
  {
    forall k: DyadicInterval | k in data'
      ensures Finished(m, grains, res, data', k)
    {
      if !d.ContainsDyadic(k) {
        assert SameAt(data, data', k);
        FinishedStays(m, grains, res, data, data', k);
      }
    }
  }

  /** A root holds every event on its side. */
  lemma RootHolds(times: seq<real>, res: int, root: DyadicInterval, f: nat, l: nat)
    requires Granular(times, res) && f <= l < |times|
    requires SameSide(FloorAt(times[f], res), FloorAt(times[l], res))
    requires root == Lca(FloorAt(times[f], res), FloorAt(times[l], res), res)
    ensures root.power <= res
    ensures forall i :: f <= i <= l ==> EventIn(times[i], root)
  {
    LcaContains(FloorAt(times[f], res), FloorAt(times[l], res), res);
    ContainsIsInclusion(root, GrainOf(times[f], res));
    ContainsIsInclusion(root, GrainOf(times[l], res));
    RealOrderAtPower(FloorAt(times[l], res), FloorAt(times[l], res) + 1, res);
    forall i | f <= i <= l
      ensures EventIn(times[i], root)
    {
      assert i > f ==> times[f] < times[i];
      assert i < l ==> times[i] < times[l];
    }
  }

  /** A query that meets an event of a root's side is indexed with it. */
  lemma RootAnswers(keys: set<DyadicInterval>, times: seq<real>, res: int, root: DyadicInterval, d: DyadicInterval,
                    i: nat)
    requires Granular(times, res) && Indexed(keys, times, res, root)
    requires i < |times| && EventIn(times[i], d) && EventIn(times[i], root)
    requires forall j :: 0 <= j < |times| && EventIn(times[j], d) ==> EventIn(times[j], root)
    ensures IndexedAt(keys, times, res, d)
  {
    MeetingNested(root, d, times[i]);
    if !root.ContainsDyadic(d) {
      ContainsItself(root);
      forall j | 0 <= j < |times| && EventIn(times[j], root)
        ensures EventIn(times[j], d)
      {
        ContainsEvents(d, root, times[j]);
      }
      SmallestSameEvents(times, res, d, root);
      assert IndexedAt(keys, times, res, root);
    }
  }

  lemma EventsOneSide(times: seq<real>, d: DyadicInterval, i: nat, j: nat)
    requires i < |times| && j < |times| && EventIn(times[i], d) && EventIn(times[j], d)
    ensures times[i] < 0.0 <==> times[j] < 0.0
  {
    SideOfReal(d.multiplier, d.power);
    SideOfReal(d.multiplier + 1, d.power);
  }

  lemma NegativeIndexes(keys: set<DyadicInterval>, times: seq<real>, res: int, d: DyadicInterval, i: nat)
    requires Granular(times, res) && !StraddlesZero(times)
    requires NegativeRoot(times, res).Some? ==> Indexed(keys, times, res, NegativeRoot(times, res).value)
    requires i < |times| && EventIn(times[i], d) && times[i] < 0.0
    ensures IndexedAt(keys, times, res, d)
  {
    var zeu := UpperBound(times, 0.0);
    NegativeSide(times, res);
    RootHolds(times, res, NegativeRoot(times, res).value, 0, zeu - 1);
    UpperBoundSeparates(times, 0.0);
    forall j | 0 <= j < |times| && EventIn(times[j], d)
      ensures j < zeu
    {
      EventsOneSide(times, d, i, j);
    }
    RootAnswers(keys, times, res, NegativeRoot(times, res).value, d, i);
  }

  lemma PositiveIndexes(keys: set<DyadicInterval>, times: seq<real>, res: int, d: DyadicInterval, i: nat)
    requires Granular(times, res)
    requires PositiveRoot(times, res).Some? ==> Indexed(keys, times, res, PositiveRoot(times, res).value)
    requires i < |times| && EventIn(times[i], d) && times[i] >= 0.0
    ensures IndexedAt(keys, times, res, d)
  {
    var zeu := LowerBound(times, 0.0);
    LowerBoundSeparates(times, 0.0);
    PositiveSide(times, res);
    RootHolds(times, res, PositiveRoot(times, res).value, zeu, |times| - 1);
    forall j | 0 <= j < |times| && EventIn(times[j], d)
      ensures zeu <= j
    {
      EventsOneSide(times, d, i, j);
    }
    RootAnswers(keys, times, res, PositiveRoot(times, res).value, d, i);
  }

  /** With both roots indexed every query is answered. */
  lemma RootsAnswer<T>(m: Monoid<T>, grains: seq<(real, T)>, res: int, data: map<DyadicInterval, T>)
    requires Granular(Times(grains), res) && !StraddlesZero(Times(grains))
    requires AllFinished(m, grains, res, data)
    requires var n := NegativeRoot(Times(grains), res); n.Some? ==> Indexed(data.Keys, Times(grains), res, n.value)
    requires var p := PositiveRoot(Times(grains), res); p.Some? ==> Indexed(data.Keys, Times(grains), res, p.value)
    ensures Answers(m, grains, res, data)
  {
    var times := Times(grains);
    forall d: DyadicInterval
      ensures AnswersAt(m, grains, res, data, d)
    {
      SmallestHoldsEvents(times, res, d);
      if HasEvent(times, d) {
        var i :| 0 <= i < |times| && EventIn(times[i], d);
        if times[i] < 0.0 {
          NegativeIndexes(data.Keys, times, res, d, i);
        } else {
          PositiveIndexes(data.Keys, times, res, d, i);
        }
        TotalOfSmallest(m, grains, res, d);
        assert Finished(m, grains, res, data, Smallest(times, res, d).value);
      }
    }
  }

  // ----- where building the index would not end -----

  /** A grain is the smallest interval of its own left half: if its value is zero the recursion
      comes back to it without end. */
  lemma ZeroGrainRevisited(times: seq<real>, res: int, i: nat)
    requires Granular(times, res) && i < |times|
    ensures var g := GrainOf(times[i], res);
            Smallest(times, res, g) == Some(g) && Smallest(times, res, g.LeftHalf()) == Some(g)
  {
    var g := GrainOf(times[i], res);
    HalvesMeet(g);
    ContainsItself(g);
    ContainsItself(g.LeftHalf());
    HalvesInside(g, g.LeftHalf());
    assert EventIn(times[i], g) && EventIn(times[i], g.LeftHalf());
    SmallestOfFine(times, res, g, g);
    SmallestOfFine(times, res, g, g.LeftHalf());
  }

  /** Whether the rounded query [b, e) at resolution res holds an event. */
  ghost predicate EventBetween(times: seq<real>, b: int, e: int, res: int) {
    exists i :: 0 <= i < |times| && Dyadic(b, res).Real() <= times[i] < Dyadic(e, res).Real()
  }

  lemma PieceInQuery(b: int, e: int, res: int, j: nat, t: real)
    requires b <= e && j < |Pieces(b, e, res)| && EventIn(t, Pieces(b, e, res)[j])
    ensures Dyadic(b, res).Real() <= t < Dyadic(e, res).Real()
  {
    var p := Pieces(b, e, res)[j];
    PiecesAreMaximal(b, e, res);
    TilesBounds(Pieces(b, e, res), b, e, res, j);
    WindowReal(p, res);
    RealOrderAtPower(p.Lo(res), b, res);
    RealOrderAtPower(e, p.Hi(res), res);
  }

  lemma QueryInPiece(b: int, e: int, res: int, x: int) returns (j: nat)
    requires b <= e && Dyadic(b, res).Real() <= Dyadic(x, res).Real() < Dyadic(e, res).Real()
    ensures j < |Pieces(b, e, res)| && EventIn(Dyadic(x, res).Real(), Pieces(b, e, res)[j])
  {
    RealOrderAtPower(x, b, res);
    RealOrderAtPower(x, e, res);
    PiecesAreMaximal(b, e, res);
    j := TilesCoverOnce(Pieces(b, e, res), b, e, res, x);
    PieceEvent(Dyadic(x, res).Real(), x, Pieces(b, e, res)[j], res);
  }

  /** A piece that holds an event shows one in the query. */
  lemma PieceShowsEvent(times: seq<real>, b: int, e: int, res: int, j: nat)
    requires b <= e && j < |Pieces(b, e, res)| && HasEvent(times, Pieces(b, e, res)[j])
    ensures EventBetween(times, b, e, res)
  {
    var i :| 0 <= i < |times| && EventIn(times[i], Pieces(b, e, res)[j]);
    PieceInQuery(b, e, res, j, times[i]);
  }

  /** An event in the query shows in one of the pieces. */
  lemma EventShowsPiece(times: seq<real>, b: int, e: int, res: int) returns (j: nat)
    requires b <= e && Granular(times, res) && EventBetween(times, b, e, res)
    ensures j < |Pieces(b, e, res)| && HasEvent(times, Pieces(b, e, res)[j])
  {
    var i :| 0 <= i < |times| && Dyadic(b, res).Real() <= times[i] < Dyadic(e, res).Real();
    j := QueryInPiece(b, e, res, FloorAt(times[i], res));
  }

  lemma PieceEvent(t: real, x: int, p: DyadicInterval, res: int)
    requires t == Dyadic(x, res).Real() && p.power <= res && p.Lo(res) <= x < p.Hi(res)
    ensures EventIn(t, p)
  {
    WindowReal(p, res);
    RealOrderAtPower(x, p.Lo(res), res);
    RealOrderAtPower(x, p.Hi(res), res);
  }
}
