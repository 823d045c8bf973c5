/** `to_dyadic_intervals`: cutting an interval into dyadic pieces of power at most `tol`. */
module Dissection {
  import opened Powers
  import opened DyadicIntervals

  /** The rounding of both ends to the grains of size 2^-tol has made the query [b, e) in grains.
      At every level an odd end is cut off, and what is left is a range at the level above. */
  function Pieces(b: int, e: int, n: int): (pieces: seq<DyadicInterval>)
    requires b <= e
    decreases e - b
  {
    if b == e then []
    else LeftCut(b, n) + Pieces((b + 1) / 2, e / 2, n - 1) + RightCut(e, n)
  }

  function LeftCut(b: int, n: int): seq<DyadicInterval> {
    if b % 2 == 0 then [] else [DyadicInterval(b, n)]
  }

  function RightCut(e: int, n: int): seq<DyadicInterval> {
    if e % 2 == 0 then [] else [DyadicInterval(e - 1, n)]
  }

  /** What the right end contributes over the first j levels. */
  function RightCuts(e: int, n: int, j: nat): seq<DyadicInterval>
    decreases j
  {
    if j == 0 then [] else RightCuts(e / 2, n - 1, j - 1) + RightCut(e, n)
  }

  lemma {:induction false} RightCutsSplit(e: int, n: int, i: nat, j: nat)
    ensures RightCuts(e, n, i + j) == RightCuts(Up(e, i), n - i, j) + RightCuts(e, n, i)
    decreases i
  {
    if i == 0 {
    } else {
      RightCutsSplit(e / 2, n - 1, i - 1, j);
    }
  }

  /** One step of the first loop. */
  lemma LeftStep(begin: DyadicInterval, e0: int, tol: int, j: nat)
    requires begin.power == tol - j && begin.multiplier < Up(e0, j)
    ensures begin.Aligned() <==> begin.multiplier % 2 == 0
    ensures begin.Aligned() ==> begin.Expanded() == DyadicInterval((begin.multiplier + 1) / 2, begin.power - 1)
    ensures !begin.Aligned() ==> begin.Expanded().ShrinkToOmittedEnd() == begin
                                 && begin.Expanded().Next()
                                     == DyadicInterval((begin.multiplier + 1) / 2, begin.power - 1)
    ensures (begin.multiplier + 1) / 2 <= Up(e0, j + 1)
    ensures Up(e0, j + 1) - (begin.multiplier + 1) / 2 < Up(e0, j) - begin.multiplier
    ensures Pieces(begin.multiplier, Up(e0, j), begin.power) + RightCuts(e0, tol, j)
         == LeftCut(begin.multiplier, begin.power)
            + (Pieces((begin.multiplier + 1) / 2, Up(e0, j + 1), begin.power - 1) + RightCuts(e0, tol, j + 1))
  {
    PiecesStep(begin.multiplier, e0, tol, j);
    hide Pieces, RightCuts, LeftCut;
    UpStep(e0, j);
    ParentIs(begin);
    AlignedIsEven(begin);
    HalvesAre(begin.Expanded());
  }

  lemma PiecesStep(b: int, e0: int, tol: int, j: nat)
    requires b < Up(e0, j)
    ensures (b + 1) / 2 <= Up(e0, j + 1)
    ensures Pieces(b, Up(e0, j), tol - j) + RightCuts(e0, tol, j)
         == LeftCut(b, tol - j) + (Pieces((b + 1) / 2, Up(e0, j + 1), tol - j - 1) + RightCuts(e0, tol, j + 1))
  {
    UpStep(e0, j);
    RightCutsNext(e0, tol, j);
    hide RightCuts, LeftCut, RightCut;
    RegroupFour(LeftCut(b, tol - j), Pieces((b + 1) / 2, Up(e0, j + 1), tol - j - 1), RightCut(Up(e0, j), tol - j),
                RightCuts(e0, tol, j));
  }

  lemma RegroupFour<T>(a: seq<T>, b: seq<T>, c: seq<T>, d: seq<T>)
    ensures a + b + c + d == a + (b + (c + d))
  {
  }

  lemma RightCutsNext(e0: int, tol: int, j: nat)
    ensures RightCuts(e0, tol, j + 1) == RightCut(Up(e0, j), tol - j) + RightCuts(e0, tol, j)
  {
    RightCutsSplit(e0, tol, j, 1);
    assert RightCuts(Up(e0, j), tol - j, 1) == RightCut(Up(e0, j), tol - j);
  }

  /** One step of the second loop. */
  lemma RightStep(end: DyadicInterval, e0: int, tol: int, i: nat)
    requires end == DyadicInterval(Up(e0, i), tol - i)
    ensures end.Expanded() == DyadicInterval(Up(e0, i + 1), tol - i - 1)
    ensures RightCuts(e0, tol, i + 1)
         == (if end.Aligned() then [] else [end.Expanded().ShrinkToContainedEnd()]) + RightCuts(e0, tol, i)
  {
    UpStep(e0, i);
    RightCutsNext(e0, tol, i);
    ParentIs(end);
    AlignedIsEven(end);
    HalvesAre(end.Expanded());
  }

  lemma Regroup<T>(a: seq<T>, b: seq<T>, c: seq<T>)
    ensures a + (b + c) == (a + b) + c
  {
  }

  /** The first loop: climb from the left end until it covers the right end, storing what is
      cut off on the way. */
  method ClimbLeft(begin0: DyadicInterval, end: DyadicInterval)
    returns (begin: DyadicInterval, intervals: seq<DyadicInterval>, ghost top: nat)
    requires begin0.power == end.power && begin0.multiplier <= end.multiplier
    ensures begin == DyadicInterval(Up(end.multiplier, top), end.power - top)
    ensures Pieces(begin0.multiplier, end.multiplier, end.power) == intervals
            + RightCuts(end.multiplier, end.power, top)
  {
    begin := begin0;
    intervals := [];
    top := 0;
    ghost var e0, tol := end.multiplier, end.power;
    while !begin.ContainsDyadic(end)
      invariant begin.power == tol - top
      invariant begin.multiplier <= Up(e0, top)
      invariant Pieces(begin0.multiplier, e0, tol)
             == intervals + (Pieces(begin.multiplier, Up(e0, top), begin.power) + RightCuts(e0, tol, top))
      decreases Up(e0, top) - begin.multiplier
    {
      ContainsIsUp(begin, end);
      LeftStep(begin, e0, tol, top);
      ghost var cut := LeftCut(begin.multiplier, begin.power);
      Regroup(intervals, cut, Pieces((begin.multiplier + 1) / 2, Up(e0, top + 1), begin.power - 1)
              + RightCuts(e0, tol, top + 1));
      ghost var before := intervals;
      var next := begin.Expanded();
      if !begin.Aligned() {
        intervals := intervals + [next.ShrinkToOmittedEnd()];
        next := next.Next();
      }
      assert intervals == before + cut;
      begin := next;
      top := top + 1;
    }
    ContainsIsUp(begin, end);
    assert Pieces(begin.multiplier, Up(e0, top), begin.power) == [];
    assert [] + RightCuts(e0, tol, top) == RightCuts(e0, tol, top);
  }

  /** The second loop: climb from the right end to the level of `begin`, inserting what is cut
      off in front of what was inserted before. */
  method ClimbRight(begin: DyadicInterval, end0: DyadicInterval, left: seq<DyadicInterval>, ghost top: nat)
    returns (intervals: seq<DyadicInterval>)
    requires begin == DyadicInterval(Up(end0.multiplier, top), end0.power - top)
    ensures intervals == left + RightCuts(end0.multiplier, end0.power, top)
  {
    intervals := left;
    var end := end0;
    ghost var e0, tol := end0.multiplier, end0.power;
    var p := |intervals|;
    ghost var i := 0;
    var next := end.Expanded();
    RightStep(end, e0, tol, 0);
    ClimbGoesOn(begin, end0, top, 0);
    while begin.ContainsDyadic(next)
      invariant 0 <= i <= top
      invariant end == DyadicInterval(Up(e0, i), tol - i) && next == end.Expanded()
      invariant begin.ContainsDyadic(next) <==> i < top
      invariant |left| == p && intervals == left + RightCuts(e0, tol, i)
      decreases top - i
    {
      RightStep(end, e0, tol, i);
      if !end.Aligned() {
        intervals := intervals[..p] + [next.ShrinkToContainedEnd()] + intervals[p..];
      }
      end := next;
      next := next.Expanded();
      i := i + 1;
      ClimbGoesOn(begin, end0, top, i);
    }
  }

  lemma ClimbGoesOn(begin: DyadicInterval, end0: DyadicInterval, top: nat, i: nat)
    requires begin == DyadicInterval(Up(end0.multiplier, top), end0.power - top) && i <= top
    ensures begin.ContainsDyadic(DyadicInterval(Up(end0.multiplier, i), end0.power - i).Expanded()) <==> i < top
  {
    var next := DyadicInterval(Up(end0.multiplier, i), end0.power - i).Expanded();
    RightStep(DyadicInterval(Up(end0.multiplier, i), end0.power - i), end0.multiplier, end0.power, i);
    ContainsIsUp(begin, next);
    if i < top {
      UpAdd(end0.multiplier, i + 1, top - i - 1);
    }
  }

  method CutRange(begin0: DyadicInterval, end: DyadicInterval) returns (pieces: seq<DyadicInterval>)
    requires begin0.power == end.power && begin0.multiplier <= end.multiplier
    ensures pieces == Pieces(begin0.multiplier, end.multiplier, end.power)
  {
    var begin, intervals, top := ClimbLeft(begin0, end);
    pieces := ClimbRight(begin, end, intervals, top);
  }

  /** Both ends are rounded down to the resolution, then the range between is cut. */
  method ToDyadicIntervals(inf: real, sup: real, tol: int) returns (pieces: seq<DyadicInterval>)
    requires inf <= sup
    ensures FloorAt(inf, tol) <= FloorAt(sup, tol)
    ensures pieces == Pieces(FloorAt(inf, tol), FloorAt(sup, tol), tol)
  {
    FloorAtMono(inf, sup, tol);
    pieces := CutRange(DyadicInterval(FloorAt(inf, tol), tol), DyadicInterval(FloorAt(sup, tol), tol));
  }

  // ----- the pieces tile the query, left to right -----

  /** The windows of the pieces, in grains of size 2^-t, lie end to end from lo to hi. */
  ghost predicate Tiles(pieces: seq<DyadicInterval>, lo: int, hi: int, t: int) {
    if pieces == [] then lo == hi
    else pieces[0].power <= t && pieces[0].Lo(t) == lo && Tiles(pieces[1..], pieces[0].Hi(t), hi, t)
  }

  lemma {:induction false} TilesConcat(p: seq<DyadicInterval>, q: seq<DyadicInterval>, lo: int, mid: int, hi: int,
                                       t: int)
    requires Tiles(p, lo, mid, t) && Tiles(q, mid, hi, t)
    ensures Tiles(p + q, lo, hi, t)
    decreases |p|
  {
    if p == [] {
      assert p + q == q;
    } else {
      TilesConcat(p[1..], q, p[0].Hi(t), mid, hi, t);
      assert (p + q)[1..] == p[1..] + q;
    }
  }

  lemma CutsTile(b: int, e: int, n: int, t: int)
    requires t >= n
    ensures Tiles(LeftCut(b, n), Shift(b, t - n), Shift((b + 1) / 2, t - n + 1), t)
    ensures Tiles(RightCut(e, n), Shift(e / 2, t - n + 1), Shift(e, t - n), t)
  {
    hide Shift, Tiles;
    ShiftStep((b + 1) / 2, t - n);
    ShiftStep(e / 2, t - n);
    if b % 2 != 0 {
      TileOne(b, n, t);
    } else {
      TileNone(Shift(b, t - n), t);
    }
    if e % 2 != 0 {
      TileOne(e - 1, n, t);
    } else {
      TileNone(Shift(e, t - n), t);
    }
  }

  lemma TileNone(at: int, t: int)
    ensures Tiles([], at, at, t)
  {
  }

  lemma TileOne(k: int, n: int, t: int)
    requires t >= n
    ensures Tiles([DyadicInterval(k, n)], Shift(k, t - n), Shift(k + 1, t - n), t)
  {
    hide Shift;
    var pieces := [DyadicInterval(k, n)];
    assert pieces[1..] == [];
  }

  lemma {:induction false} PiecesTile(b: int, e: int, n: int, t: int)
    requires b <= e && t >= n
    ensures Tiles(Pieces(b, e, n), Shift(b, t - n), Shift(e, t - n), t)
    decreases e - b
  {
    if b < e {
      CutsTile(b, e, n, t);
      var mid := Pieces((b + 1) / 2, e / 2, n - 1);
      PiecesTile((b + 1) / 2, e / 2, n - 1, t);
      TilesConcat(LeftCut(b, n), mid, Shift(b, t - n), Shift((b + 1) / 2, t - n + 1), Shift(e / 2, t - n + 1), t);
      TilesConcat(LeftCut(b, n) + mid, RightCut(e, n), Shift(b, t - n), Shift(e / 2, t - n + 1), Shift(e, t - n), t);
    }
  }

  lemma {:induction false} TilesBounds(pieces: seq<DyadicInterval>, lo: int, hi: int, t: int, i: nat)
    requires Tiles(pieces, lo, hi, t) && i < |pieces|
    ensures pieces[i].power <= t && lo <= pieces[i].Lo(t) < pieces[i].Hi(t) <= hi
    decreases i
  {
    WindowLength(pieces[0], t);
    if i > 0 {
      TilesBounds(pieces[1..], pieces[0].Hi(t), hi, t, i - 1);
    } else {
      TilesOrdered(pieces[1..], pieces[0].Hi(t), hi, t);
    }
  }

  lemma {:induction false} TilesOrdered(pieces: seq<DyadicInterval>, lo: int, hi: int, t: int)
    requires Tiles(pieces, lo, hi, t)
    ensures lo <= hi
    decreases |pieces|
  {
    if pieces != [] {
      WindowLength(pieces[0], t);
      TilesOrdered(pieces[1..], pieces[0].Hi(t), hi, t);
    }
  }

  /** Pieces further right start where earlier ones have ended. */
  lemma {:induction false} TilesLeftToRight(pieces: seq<DyadicInterval>, lo: int, hi: int, t: int, i: nat, j: nat)
    requires Tiles(pieces, lo, hi, t) && i < j < |pieces|
    ensures pieces[i].power <= t && pieces[j].power <= t && pieces[i].Hi(t) <= pieces[j].Lo(t)
    decreases i
  {
    if i == 0 {
      TilesBounds(pieces[1..], pieces[0].Hi(t), hi, t, j - 1);
    } else {
      TilesLeftToRight(pieces[1..], pieces[0].Hi(t), hi, t, i - 1, j - 1);
    }
  }

  /** Every grain of the query lies in exactly one piece. */
  lemma {:induction false} TilesCoverOnce(pieces: seq<DyadicInterval>, lo: int, hi: int, t: int, x: int)
    returns (i: nat)
    requires Tiles(pieces, lo, hi, t) && lo <= x < hi
    ensures i < |pieces| && pieces[i].power <= t && pieces[i].Lo(t) <= x < pieces[i].Hi(t)
    ensures forall j: nat :: j < |pieces| && j != i ==>
              pieces[j].power <= t && !(pieces[j].Lo(t) <= x < pieces[j].Hi(t))
    decreases |pieces|
  {
    if x < pieces[0].Hi(t) {
      i := 0;
    } else {
      var k := TilesCoverOnce(pieces[1..], pieces[0].Hi(t), hi, t, x);
      i := k + 1;
    }
    forall j: nat | j < |pieces| && j != i
      ensures pieces[j].power <= t && !(pieces[j].Lo(t) <= x < pieces[j].Hi(t))
    {
      if i < j {
        TilesLeftToRight(pieces, lo, hi, t, i, j);
      } else {
        TilesLeftToRight(pieces, lo, hi, t, j, i);
      }
    }
  }

  // ----- the pieces are exactly the maximal dyadic intervals -----

  predicate Within(d: DyadicInterval, b: int, e: int, n: int) {
    d.power <= n && b <= d.Lo(n) && d.Hi(n) <= e
  }

  /** No other dyadic interval holding d fits into the query. */
  ghost predicate IsMaximal(d: DyadicInterval, b: int, e: int, n: int) {
    Within(d, b, e, n)
    && forall c: DyadicInterval :: c.ContainsDyadic(d) && c != d ==> !Within(c, b, e, n)
  }

  lemma WithinHalved(d: DyadicInterval, b: int, e: int, n: int)
    requires d.power <= n - 1
    ensures Within(d, b, e, n) <==> Within(d, (b + 1) / 2, e / 2, n - 1)
  {
    ShiftStep(d.multiplier, n - 1 - d.power);
    ShiftStep(d.multiplier + 1, n - 1 - d.power);
  }

  lemma ParentDecidesMaximal(d: DyadicInterval, b: int, e: int, n: int)
    ensures IsMaximal(d, b, e, n) <==> Within(d, b, e, n) && !Within(d.Expanded(), b, e, n)
  {
    var parent := d.Expanded();
    ParentIs(d);
    ContainsIsUp(parent, d);
    ExpandedIs(d, 1);
    if Within(d, b, e, n) && !Within(parent, b, e, n) {
      forall c: DyadicInterval | c.ContainsDyadic(d) && c != d
        ensures !Within(c, b, e, n)
      {
        ContainsIsUp(c, d);
        var j := d.power - c.power;
        if j > 0 {
          UpAdd(d.multiplier, 1, j - 1);
          ContainsIsUp(c, parent);
          ContainsWindow(c, parent, n);
        }
      }
    }
  }

  lemma {:induction false} PiecesDecideMaximal(d: DyadicInterval, b: int, e: int, n: int)
    requires b <= e
    ensures d in Pieces(b, e, n) <==> Within(d, b, e, n) && !Within(d.Expanded(), b, e, n)
    decreases e - b
  {
    if b == e {
      if Within(d, b, e, n) {
        WindowLength(d, n);
      }
    } else {
      ParentIs(d);
      PiecesDecideMaximal(d, (b + 1) / 2, e / 2, n - 1);
      PiecePowers(d, (b + 1) / 2, e / 2, n - 1);
      if d.power <= n - 1 {
        WithinHalved(d, b, e, n);
        WithinHalved(d.Expanded(), b, e, n);
        assert d !in LeftCut(b, n) && d !in RightCut(e, n);
      } else if d.power == n {
        CutsAreMaximal(d, b, e);
      }
      hide Within;
    }
  }

  /** At the finest level the maximal intervals are the two that are cut off. */
  lemma CutsAreMaximal(d: DyadicInterval, b: int, e: int)
    requires b < e
    ensures d in LeftCut(b, d.power) + RightCut(e, d.power)
       <==> Within(d, b, e, d.power) && !Within(d.Expanded(), b, e, d.power)
  {
    ParentIs(d);
    var p := d.Expanded();
    ShiftStep(p.multiplier, 0);
    ShiftStep(p.multiplier + 1, 0);
    ShiftZero(d.multiplier);
    ShiftZero(d.multiplier + 1);
    ShiftZero(p.multiplier);
    ShiftZero(p.multiplier + 1);
    hide Shift;
  }

  lemma {:induction false} PiecePowers(d: DyadicInterval, b: int, e: int, n: int)
    requires b <= e
    ensures d in Pieces(b, e, n) ==> d.power <= n
    decreases e - b
  {
    if b < e {
      PiecePowers(d, (b + 1) / 2, e / 2, n - 1);
    }
  }

  /** The answer lists exactly the maximal dyadic intervals that fit into the rounded query. */
  lemma PiecesAreMaximal(b: int, e: int, n: int)
    requires b <= e
    ensures forall d: DyadicInterval :: d in Pieces(b, e, n) <==> IsMaximal(d, b, e, n)
    ensures Tiles(Pieces(b, e, n), b, e, n)
  {
    forall d: DyadicInterval
      ensures d in Pieces(b, e, n) <==> IsMaximal(d, b, e, n)
    {
      PiecesDecideMaximal(d, b, e, n);
      ParentDecidesMaximal(d, b, e, n);
    }
    PiecesTile(b, e, n, n);
    ShiftZero(b);
    ShiftZero(e);
  }

  // ----- how many pieces -----

  /** Powers fall strictly up to the split and rise strictly after it. */
  ghost predicate Valley(pieces: seq<DyadicInterval>, split: nat) {
    && split <= |pieces|
    && (forall i, j :: 0 <= i < j < split ==> pieces[i].power > pieces[j].power)
    && (forall i, j :: split <= i < j < |pieces| ==> pieces[i].power < pieces[j].power)
  }

  lemma {:induction false} PiecesFormValley(b: int, e: int, n: int) returns (split: nat)
    requires b <= e
    ensures Valley(Pieces(b, e, n), split)
    decreases e - b
  {
    split := 0;
    if b < e {
      var inner := PiecesFormValley((b + 1) / 2, e / 2, n - 1);
      var mid := Pieces((b + 1) / 2, e / 2, n - 1);
      forall i | 0 <= i < |mid|
        ensures mid[i].power <= n - 1
      {
        PiecePowers(mid[i], (b + 1) / 2, e / 2, n - 1);
      }
      split := |LeftCut(b, n)| + inner;
    }
  }

  /** At most two pieces a level: the number of pieces is logarithmic in the number of grains. */
  lemma {:induction false} PiecesLogarithmic(b: int, e: int, n: int)
    requires b < e
    ensures 1 <= |Pieces(b, e, n)|
    ensures Pow2((|Pieces(b, e, n)| + 1) / 2 - 1) <= e - b
    decreases e - b
  {
    var mid := Pieces((b + 1) / 2, e / 2, n - 1);
    if (b + 1) / 2 < e / 2 {
      PiecesLogarithmic((b + 1) / 2, e / 2, n - 1);
      assert |Pieces(b, e, n)| <= |mid| + 2;
      Pow2Mono((|Pieces(b, e, n)| + 1) / 2 - 1, (|mid| + 1) / 2);
      assert Pow2((|mid| + 1) / 2) == 2 * Pow2((|mid| + 1) / 2 - 1);
    }
  }

  /** The design goal of at most 2n multiplications: a query inside one unit interval at
      resolution n is cut into at most 2n pieces. */
  lemma PiecesPerUnitQuery(b: int, e: int, n: nat, unit: int)
    requires b <= e && n >= 1
    requires Shift(unit, n) <= b && e <= Shift(unit + 1, n)
    ensures |Pieces(b, e, n)| <= 2 * n
  {
    ShiftSucc(unit, n);
    if b < e {
      PiecesLogarithmic(b, e, n);
      var levels := (|Pieces(b, e, n)| + 1) / 2 - 1;
      if levels >= n {
        Pow2Mono(n, levels);
        WholeUnit(b, e, n, unit, n);
      }
    }
  }

  lemma {:induction false} WholeUnit(b: int, e: int, n: nat, unit: int, m: int)
    requires b == Shift(unit, n) && e == Shift(unit + 1, n)
    ensures b <= e && |Pieces(b, e, m)| == 1
    decreases n
  {
    ShiftSucc(unit, n);
    if n > 0 {
      ShiftStep(unit, n - 1);
      ShiftStep(unit + 1, n - 1);
      WholeUnit(b / 2, e / 2, n - 1, unit, m - 1);
    }
  }

  lemma {:induction false} DistinctBelow(f: seq<nat>, m: nat)
    requires forall i :: 0 <= i < |f| ==> f[i] < m
    requires forall i, j :: 0 <= i < j < |f| ==> f[i] != f[j]
    ensures |f| <= m
    decreases m
  {
    if f == [] {
      return;
    }
    assert f[0] < m;
    if m - 1 in f {
      var i :| 0 <= i < |f| && f[i] == m - 1;
      DistinctBelow(f[..i] + f[i + 1..], m - 1);
    } else {
      DistinctBelow(f, m - 1);
    }
  }

  ghost predicate CoveredBy(x: int, cover: seq<DyadicInterval>, t: int) {
    exists i :: 0 <= i < |cover| && cover[i].power <= t && cover[i].Lo(t) <= x < cover[i].Hi(t)
  }

  /** A dyadic interval that fits into the query and meets a maximal one lies inside it. */
  lemma MaximalSwallows(p: DyadicInterval, c: DyadicInterval, b: int, e: int, n: int)
    requires IsMaximal(p, b, e, n) && Within(c, b, e, n)
    requires c.Lo(n) <= p.Lo(n) < c.Hi(n)
    ensures p.Lo(n) <= c.Lo(n) && c.Hi(n) <= p.Hi(n)
  {
    NestedOrDisjoint(p, c, n);
    WindowLength(p, n);
    ContainsWindow(p, c, n);
    ContainsWindow(c, p, n);
  }

  /** The member of a cover that holds the first grain of piece i lies inside that piece. */
  lemma CoverMember(b: int, e: int, n: int, cover: seq<DyadicInterval>, i: nat) returns (k: nat)
    requires b <= e && i < |Pieces(b, e, n)|
    requires forall i :: 0 <= i < |cover| ==> Within(cover[i], b, e, n)
    requires forall x :: b <= x < e ==> CoveredBy(x, cover, n)
    ensures k < |cover| && InsidePiece(cover[k], Pieces(b, e, n)[i], n)
  {
    var p := Pieces(b, e, n)[i];
    PiecesAreMaximal(b, e, n);
    TilesBounds(Pieces(b, e, n), b, e, n, i);
    assert CoveredBy(p.Lo(n), cover, n);
    k :| 0 <= k < |cover| && cover[k].power <= n && cover[k].Lo(n) <= p.Lo(n) < cover[k].Hi(n);
    MaximalSwallows(p, cover[k], b, e, n);
  }

  predicate InsidePiece(c: DyadicInterval, p: DyadicInterval, n: int) {
    c.power <= n && p.power <= n && p.Lo(n) <= c.Lo(n) < c.Hi(n) <= p.Hi(n)
  }

  /** No list of dyadic intervals inside the query that covers it is shorter. */
  lemma PiecesShortest(b: int, e: int, n: int, cover: seq<DyadicInterval>)
    requires b <= e
    requires forall i :: 0 <= i < |cover| ==> Within(cover[i], b, e, n)
    requires forall x :: b <= x < e ==> CoveredBy(x, cover, n)
    ensures |Pieces(b, e, n)| <= |cover|
  {
    var pieces := Pieces(b, e, n);
    var f: seq<nat> := [];
    while |f| < |pieces|
      invariant |f| <= |pieces|
      invariant forall i :: 0 <= i < |f| ==> f[i] < |cover| && InsidePiece(cover[f[i]], pieces[i], n)
    {
      var k := CoverMember(b, e, n, cover, |f|);
      f := f + [k];
    }
    PiecesAreMaximal(b, e, n);
    forall i, j | 0 <= i < j < |f|
      ensures f[i] != f[j]
    {
      TilesLeftToRight(pieces, b, e, n, i, j);
    }
    DistinctBelow(f, |cover|);
  }

  /** Neighbouring queries: tilings of [a, b) and [b, c) together tile [a, c). */
  lemma PiecesAbut(a: int, b: int, c: int, n: int)
    requires a <= b <= c
    ensures Tiles(Pieces(a, b, n) + Pieces(b, c, n), a, c, n)
  {
    PiecesAreMaximal(a, b, n);
    PiecesAreMaximal(b, c, n);
    TilesConcat(Pieces(a, b, n), Pieces(b, c, n), a, b, c, n);
  }
}
