/** Values at increasing times, and what of them lies in an interval. */
module Timeline {
  import opened Monoids
  import opened Dyadics
  import opened DyadicIntervals
  import opened Dissection

  ghost predicate Sorted<T>(entries: seq<(real, T)>) {
    forall i, j :: 0 <= i < j < |entries| ==> entries[i].0 < entries[j].0
  }

  /** The values whose time is in [lo, hi), in order. */
  function Between<T>(entries: seq<(real, T)>, lo: real, hi: real): seq<T> {
    if entries == [] then []
    else (if lo <= entries[0].0 < hi then [entries[0].1] else []) + Between(entries[1..], lo, hi)
  }

  function Total<T>(m: Monoid<T>, entries: seq<(real, T)>, lo: real, hi: real): T {
    Product(m, Between(entries, lo, hi))
  }

  function TotalOver<T>(m: Monoid<T>, entries: seq<(real, T)>, d: DyadicInterval): T {
    Total(m, entries, d.IncludedEnd().Real(), d.ExcludedEnd().Real())
  }

  lemma {:induction false} BetweenEmpty<T>(entries: seq<(real, T)>, lo: real, hi: real)
    requires forall i :: 0 <= i < |entries| ==> !(lo <= entries[i].0 < hi)
    ensures Between(entries, lo, hi) == []
    decreases |entries|
  {
    if entries != [] {
      BetweenEmpty(entries[1..], lo, hi);
    }
  }

  lemma {:induction false} BetweenLater<T>(entries: seq<(real, T)>, lo: real, mid: real, hi: real)
    requires lo <= mid && forall i :: 0 <= i < |entries| ==> mid <= entries[i].0
    ensures Between(entries, lo, hi) == Between(entries, mid, hi)
    decreases |entries|
  {
    if entries != [] {
      BetweenLater(entries[1..], lo, mid, hi);
    }
  }

  lemma HeadBeforeMid<T>(entries: seq<(real, T)>, lo: real, mid: real, hi: real)
    requires entries != [] && entries[0].0 < mid && lo <= mid <= hi
    requires Between(entries[1..], lo, hi) == Between(entries[1..], lo, mid) + Between(entries[1..], mid, hi)
    ensures Between(entries, lo, hi) == Between(entries, lo, mid) + Between(entries, mid, hi)
  {
    var head := if lo <= entries[0].0 then [entries[0].1] else [];
    var a, b := Between(entries[1..], lo, mid), Between(entries[1..], mid, hi);
    assert Between(entries, mid, hi) == [] + b == b;
    assert head + (a + b) == (head + a) + b;
  }

  lemma {:induction false} BetweenSplit<T>(entries: seq<(real, T)>, lo: real, mid: real, hi: real)
    requires Sorted(entries) && lo <= mid <= hi
    ensures Between(entries, lo, hi) == Between(entries, lo, mid) + Between(entries, mid, hi)
    decreases |entries|
  {
    if entries != [] {
      BetweenSplit(entries[1..], lo, mid, hi);
      if mid <= entries[0].0 {
        BetweenEmpty(entries[1..], lo, mid);
        BetweenEmpty(entries, lo, mid);
        BetweenLater(entries, lo, mid, hi);
        hide Between;
      } else {
        HeadBeforeMid(entries, lo, mid, hi);
        hide Between;
      }
    }
  }

  /** Chen's identity at the level of the data. */
  lemma TotalSplit<T(!new)>(m: Monoid<T>, entries: seq<(real, T)>, lo: real, mid: real, hi: real)
    requires Lawful(m) && Sorted(entries) && lo <= mid <= hi
    ensures Total(m, entries, lo, hi) == m.mul(Total(m, entries, lo, mid), Total(m, entries, mid, hi))
  {
    BetweenSplit(entries, lo, mid, hi);
    ProductConcat(m, Between(entries, lo, mid), Between(entries, mid, hi));
  }

  lemma TotalOfHalves<T(!new)>(m: Monoid<T>, entries: seq<(real, T)>, d: DyadicInterval)
    requires Lawful(m) && Sorted(entries)
    ensures TotalOver(m, entries, d) == m.mul(TotalOver(m, entries, d.LeftHalf()), TotalOver(m, entries, d.RightHalf()))
  {
    HalvesMeet(d);
    TotalSplit(m, entries, d.IncludedEnd().Real(), d.LeftHalf().ExcludedEnd().Real(), d.ExcludedEnd().Real());
  }

  /** Two intervals that hold the same entries have the same total. */
  lemma {:induction false} BetweenSame<T>(entries: seq<(real, T)>, lo: real, hi: real, lo': real, hi': real)
    requires forall i :: 0 <= i < |entries| ==> (lo <= entries[i].0 < hi <==> lo' <= entries[i].0 < hi')
    ensures Between(entries, lo, hi) == Between(entries, lo', hi')
    decreases |entries|
  {
    if entries != [] {
      BetweenSame(entries[1..], lo, hi, lo', hi');
    }
  }

  function Totals<T>(m: Monoid<T>, entries: seq<(real, T)>, pieces: seq<DyadicInterval>): seq<T> {
    seq(|pieces|, i requires 0 <= i < |pieces| => TotalOver(m, entries, pieces[i]))
  }

  /** The totals of pieces lying end to end multiply up to the total of the whole. */
  lemma {:induction false} TotalOfTiles<T(!new)>(m: Monoid<T>, entries: seq<(real, T)>, pieces: seq<DyadicInterval>,
                                                 lo: int, hi: int, t: int)
    requires Lawful(m) && Sorted(entries) && Tiles(pieces, lo, hi, t)
    ensures Product(m, Totals(m, entries, pieces))
         == Total(m, entries, Dyadic(lo, t).Real(), Dyadic(hi, t).Real())
    decreases |pieces|
  {
    var a, c := Dyadic(lo, t).Real(), Dyadic(hi, t).Real();
    if pieces == [] {
      BetweenEmpty(entries, a, c);
    } else {
      var d := pieces[0];
      var b := Dyadic(d.Hi(t), t).Real();
      TotalOfTiles(m, entries, pieces[1..], d.Hi(t), hi, t);
      WindowReal(d, t);
      WindowLength(d, t);
      TilesOrdered(pieces[1..], d.Hi(t), hi, t);
      RealOrderAtPower(lo, d.Hi(t), t);
      RealOrderAtPower(d.Hi(t), hi, t);
      RealOrderAtPower(hi, d.Hi(t), t);
      TotalSplit(m, entries, a, b, c);
      assert Totals(m, entries, pieces)[1..] == Totals(m, entries, pieces[1..]);
    }
  }

  // ----- lower bounds -----

  ghost predicate Increasing(times: seq<real>) {
    forall i, j :: 0 <= i < j < |times| ==> times[i] < times[j]
  }

  function Times<T>(entries: seq<(real, T)>): seq<real> {
    seq(|entries|, i requires 0 <= i < |entries| => entries[i].0)
  }

  /** `std::lower_bound`: the index of the first time that is not less than v. */
  function LowerBound(times: seq<real>, v: real): (i: nat)
    ensures i <= |times|
    ensures forall j :: 0 <= j < i ==> times[j] < v
    ensures i < |times| ==> times[i] >= v
  {
    if times == [] || times[0] >= v then 0 else 1 + LowerBound(times[1..], v)
  }

  lemma {:induction false} LowerBoundsOrdered(times: seq<real>, lo: real, hi: real)
    requires lo <= hi
    ensures LowerBound(times, lo) <= LowerBound(times, hi)
    decreases |times|
  {
    if times != [] {
      LowerBoundsOrdered(times[1..], lo, hi);
    }
  }

  lemma LowerBoundSeparates(times: seq<real>, v: real)
    requires Increasing(times)
    ensures forall j :: 0 <= j < |times| ==> (j < LowerBound(times, v) <==> times[j] < v)
  {
    var i := LowerBound(times, v);
    forall j | i < j < |times|
      ensures times[j] >= v
    {
      assert times[i] < times[j];
    }
  }

  function Values<T>(entries: seq<(real, T)>): seq<T> {
    seq(|entries|, i requires 0 <= i < |entries| => entries[i].1)
  }

  lemma {:induction false} BetweenAll<T>(entries: seq<(real, T)>, lo: real, hi: real)
    requires forall i :: 0 <= i < |entries| ==> lo <= entries[i].0 < hi
    ensures Between(entries, lo, hi) == Values(entries)
    decreases |entries|
  {
    if entries != [] {
      BetweenAll(entries[1..], lo, hi);
      assert Values(entries) == [entries[0].1] + Values(entries[1..]);
    }
  }

  lemma {:induction false} BetweenConcat<T>(a: seq<(real, T)>, b: seq<(real, T)>, lo: real, hi: real)
    ensures Between(a + b, lo, hi) == Between(a, lo, hi) + Between(b, lo, hi)
    decreases |a|
  {
    if a == [] {
      assert a + b == b;
    } else {
      assert (a + b)[1..] == a[1..] + b;
      BetweenConcat(a[1..], b, lo, hi);
    }
  }

  lemma BetweenParts<T>(a: seq<(real, T)>, b: seq<(real, T)>, c: seq<(real, T)>, lo: real, hi: real)
    requires Between(a, lo, hi) == [] && Between(c, lo, hi) == []
    ensures Between(a + (b + c), lo, hi) == Between(b, lo, hi)
  {
    BetweenConcat(a, b + c, lo, hi);
    BetweenConcat(b, c, lo, hi);
  }

  lemma SliceBetween<T>(entries: seq<(real, T)>, i: nat, j: nat, lo: real, hi: real)
    requires i <= j <= |entries|
    requires forall k :: 0 <= k < |entries| ==> (k < i <==> entries[k].0 < lo) && (k < j <==> entries[k].0 < hi)
    ensures Between(entries, lo, hi) == Values(entries[i..j])
  {
    var a, b, c := entries[..i], entries[i..j], entries[j..];
    BetweenEmpty(a, lo, hi);
    BetweenAll(b, lo, hi);
    BetweenEmpty(c, lo, hi);
    BetweenParts(a, b, c, lo, hi);
    assert entries == a + (b + c);
  }

  /** What lies in [lo, hi) is the slice between the two lower bounds. */
  lemma BetweenIsSlice<T>(entries: seq<(real, T)>, lo: real, hi: real)
    requires Sorted(entries) && lo <= hi
    ensures LowerBound(Times(entries), lo) <= LowerBound(Times(entries), hi)
    ensures Between(entries, lo, hi)
         == Values(entries[LowerBound(Times(entries), lo)..LowerBound(Times(entries), hi)])
  {
    var times := Times(entries);
    assert Increasing(times);
    hide Between, Values;
    LowerBoundsOrdered(times, lo, hi);
    LowerBoundSeparates(times, lo);
    LowerBoundSeparates(times, hi);
    forall k | 0 <= k < |entries|
      ensures (k < LowerBound(times, lo) <==> entries[k].0 < lo) && (k < LowerBound(times, hi) <==> entries[k].0 < hi)
    {
      assert entries[k].0 == times[k];
    }
    SliceBetween(entries, LowerBound(times, lo), LowerBound(times, hi), lo, hi);
  }

  // ----- queries -----

  /** What a query over [inf, sup) at resolution r is about: both ends rounded down to r. */
  function QueryTotal<T>(m: Monoid<T>, entries: seq<(real, T)>, inf: real, sup: real, r: int): T {
    Total(m, entries, Dyadic(FloorAt(inf, r), r).Real(), Dyadic(FloorAt(sup, r), r).Real())
  }

  lemma QueryEnds(inf: real, sup: real, r: int)
    requires inf <= sup
    ensures Dyadic(FloorAt(inf, r), r).Real() <= Dyadic(FloorAt(sup, r), r).Real()
  {
    FloorAtMono(inf, sup, r);
    RealOrderAtPower(FloorAt(sup, r), FloorAt(inf, r), r);
  }

  /** Chen's identity for queries: answers over adjacent intervals multiply to the answer over
      the whole. */
  lemma Chen<T(!new)>(m: Monoid<T>, entries: seq<(real, T)>, a: real, b: real, c: real, r: int)
    requires Lawful(m) && Sorted(entries) && a <= b <= c
    ensures QueryTotal(m, entries, a, c, r)
         == m.mul(QueryTotal(m, entries, a, b, r), QueryTotal(m, entries, b, c, r))
  {
    QueryEnds(a, b, r);
    QueryEnds(b, c, r);
    TotalSplit(m, entries, Dyadic(FloorAt(a, r), r).Real(), Dyadic(FloorAt(b, r), r).Real(),
               Dyadic(FloorAt(c, r), r).Real());
  }

  /** The totals of the pieces of a query multiply up to its answer. */
  lemma QueryFromPieces<T(!new)>(m: Monoid<T>, entries: seq<(real, T)>, inf: real, sup: real, r: int)
    requires Lawful(m) && Sorted(entries) && FloorAt(inf, r) <= FloorAt(sup, r)
    ensures Product(m, Totals(m, entries, Pieces(FloorAt(inf, r), FloorAt(sup, r), r)))
            == QueryTotal(m, entries, inf, sup, r)
  {
    var b, e := FloorAt(inf, r), FloorAt(sup, r);
    PiecesAreMaximal(b, e, r);
    TotalOfTiles(m, entries, Pieces(b, e, r), b, e, r);
  }
}
