/** What the caching layer answers on queries finer than its own resolution. */
module FinerQueries {
  import opened Powers
  import opened Dyadics
  import opened DyadicIntervals
  import opened Dissection
  import opened Monoids
  import opened Timeline
  import opened IncrementData

  // ----- increments at the starts of grains -----

  ghost predicate StartsGrain(t: real, res: int) {
    exists k: int {:trigger Dyadic(k, res)} :: t == Dyadic(k, res).Real()
  }

  /** All increments lie at multiples of 2^-res. */
  ghost predicate AtGrainStarts<T>(data: seq<(real, T)>, res: int) {
    forall i :: 0 <= i < |data| ==> StartsGrain(data[i].0, res)
  }

  /** A multiple of 2^-res in a grain is its start. */
  lemma OnlyTheStart(t: real, res: int, q: int)
    requires StartsGrain(t, res) && Dyadic(q, res).Real() <= t < Dyadic(q + 1, res).Real()
    ensures t == Dyadic(q, res).Real()
  {
    var k: int :| t == Dyadic(k, res).Real();
    RealOrderAtPower(k, q, res);
    RealOrderAtPower(k, q + 1, res);
  }

  lemma GrainHolds(d: DyadicInterval, res: int)
    requires d.power > res
    ensures var grain := d.Expanded(d.power - res);
            && grain.power == res && grain.ContainsDyadic(d)
            && grain.IncludedEnd().Real() <= d.IncludedEnd().Real()
            && d.ExcludedEnd().Real() <= grain.ExcludedEnd().Real()
  {
    var grain := d.Expanded(d.power - res);
    ExpandedIs(d, d.power - res);
    ContainsIsUp(grain, d);
    ContainsIsInclusion(grain, d);
  }

  /** Then the layer loses nothing, however fine the interval is. */
  lemma StartsAreAnswered<T(!new)>(m: Monoid<T>, data: seq<(real, T)>, res: int, d: DyadicInterval)
    requires AtGrainStarts(data, res)
    ensures DyadicAnswer(m, data, res, d) == TotalOver(m, data, d)
  {
    if d.power > res && !NothingInside(data, d) {
      var grain := d.Expanded(d.power - res);
      GrainHolds(d, res);
      var start, lo, hi := grain.IncludedEnd().Real(), d.IncludedEnd().Real(), d.ExcludedEnd().Real();
      forall i | 0 <= i < |data| && start <= data[i].0 < grain.ExcludedEnd().Real()
        ensures data[i].0 == start
      {
        assert StartsGrain(data[i].0, res);
        OnlyTheStart(data[i].0, res, grain.multiplier);
      }
      var i :| 0 <= i < |data| && lo <= data[i].0 < hi;
      assert lo == start;
      BetweenSame(data, start, grain.ExcludedEnd().Real(), lo, hi);
    } else if d.power > res {
      NothingTotals(m, data, d);
    }
  }

  lemma StartsAreTotals<T(!new)>(m: Monoid<T>, data: seq<(real, T)>, res: int, inf: real, sup: real, r: int)
    requires Lawful(m) && Sorted(data) && AtGrainStarts(data, res) && FloorAt(inf, r) <= FloorAt(sup, r)
    ensures LayerAnswer(m, data, res, inf, sup, r) == QueryTotal(m, data, inf, sup, r)
  {
    hide DyadicAnswer, TotalOver, AtGrainStarts, Pieces, FloorAt;
    var pieces := Pieces(FloorAt(inf, r), FloorAt(sup, r), r);
    forall i | 0 <= i < |pieces|
      ensures DyadicAnswer(m, data, res, pieces[i]) == TotalOver(m, data, pieces[i])
    {
      StartsAreAnswered(m, data, res, pieces[i]);
    }
    assert DyadicAnswers(m, data, res, pieces) == Totals(m, data, pieces);
    QueryFromPieces(m, data, inf, sup, r);
  }

  // ----- any increments -----

  /** The largest dyadic interval that starts with the grain of the right end and fits before that. */
  function TailPiece(e: int, n: int, j: nat): DyadicInterval
    decreases j
  {
    if j == 0 || Shift(Up(e / 2, j - 1), j - 1) == e / 2 then DyadicInterval(e - 1, n)
    else TailPiece(e / 2, n - 1, j - 1)
  }

  /** It starts where the grain does, ends not after e, and would be too long at twice its length. */
  lemma {:induction false} TailPieceIs(e: int, n: int, j: nat)
    requires Shift(Up(e, j), j) != e
    ensures var t := TailPiece(e, n, j);
            && n - j < t.power <= n && t.Lo(n) == Shift(Up(e, j), j)
            && t.Hi(n) <= e < t.Lo(n) + 2 * (t.Hi(n) - t.Lo(n))
    decreases j
  {
    ShiftZero(e);
    ShiftZero(e - 1);
    assert j > 0;
    ShiftStep(Up(e / 2, j - 1), j - 1);
    if Shift(Up(e / 2, j - 1), j - 1) != e / 2 {
      TailPieceIs(e / 2, n - 1, j - 1);
      var t := TailPiece(e / 2, n - 1, j - 1);
      ShiftStep(t.multiplier, n - 1 - t.power);
      ShiftStep(t.multiplier + 1, n - 1 - t.power);
    }
  }

  /** What the grain of the right end contributes: all of it, if there is an increment in its first
      piece, and otherwise nothing. */
  ghost function TailAnswer<T(!new)>(m: Monoid<T>, data: seq<(real, T)>, res: int, e: int, j: nat): T {
    if Shift(Up(e, j), j) == e || NothingInside(data, TailPiece(e, res + j, j)) then m.one
    else TotalOver(m, data, DyadicInterval(Up(e, j), res))
  }

  /** An interval that does not start with a grain answers nothing. */
  lemma OffStart<T(!new)>(m: Monoid<T>, data: seq<(real, T)>, res: int, k: int, j: nat)
    requires j > 0 && Shift(Up(k, j), j) != k
    ensures DyadicAnswer(m, data, res, DyadicInterval(k, res + j)) == m.one
  {
    var d := DyadicInterval(k, res + j);
    ExpandedIs(d, j);
    RealShift(Up(k, j), res, j);
    RealOrderAtPower(k, Shift(Up(k, j), j), res + j);
  }

  lemma OnStart<T(!new)>(m: Monoid<T>, data: seq<(real, T)>, res: int, k: int, j: nat)
    requires j > 0 && Shift(Up(k, j), j) == k
    ensures DyadicAnswer(m, data, res, DyadicInterval(k, res + j))
         == if NothingInside(data, DyadicInterval(k, res + j)) then m.one
            else TotalOver(m, data, DyadicInterval(Up(k, j), res))
  {
    var d := DyadicInterval(k, res + j);
    ExpandedIs(d, j);
    RealShift(Up(k, j), res, j);
  }

  lemma AnswersConcat<T(!new)>(m: Monoid<T>, data: seq<(real, T)>, res: int, a: seq<DyadicInterval>,
                               b: seq<DyadicInterval>)
    requires Lawful(m)
    ensures Product(m, DyadicAnswers(m, data, res, a + b))
         == m.mul(Product(m, DyadicAnswers(m, data, res, a)), Product(m, DyadicAnswers(m, data, res, b)))
  {
    assert DyadicAnswers(m, data, res, a + b) == DyadicAnswers(m, data, res, a) + DyadicAnswers(m, data, res, b);
    ProductConcat(m, DyadicAnswers(m, data, res, a), DyadicAnswers(m, data, res, b));
  }

  lemma AnswersOne<T(!new)>(m: Monoid<T>, data: seq<(real, T)>, res: int, d: DyadicInterval)
    requires Lawful(m)
    ensures Product(m, DyadicAnswers(m, data, res, [d])) == DyadicAnswer(m, data, res, d)
    ensures Product(m, DyadicAnswers(m, data, res, [])) == m.one
  {
    hide DyadicAnswer;
    assert DyadicAnswers(m, data, res, [d]) == [DyadicAnswer(m, data, res, d)];
    assert DyadicAnswers(m, data, res, []) == [];
    ProductOne(m, DyadicAnswer(m, data, res, d));
  }

  /** What is cut off at the left end never starts a grain. */
  lemma LeftCutLost<T(!new)>(m: Monoid<T>, data: seq<(real, T)>, res: int, b: int, j: nat)
    requires Lawful(m) && j > 0
    ensures Product(m, DyadicAnswers(m, data, res, LeftCut(b, res + j))) == m.one
  {
    hide DyadicAnswer, Lawful;
    AnswersOne(m, data, res, DyadicInterval(b, res + j));
    if b % 2 != 0 {
      ShiftStep(Up(b, j), j - 1);
      OffStart(m, data, res, b, j);
    }
  }

  lemma RightCutAnswer<T(!new)>(m: Monoid<T>, data: seq<(real, T)>, res: int, e: int, j: nat)
    requires Lawful(m) && j > 0
    ensures Product(m, DyadicAnswers(m, data, res, RightCut(e, res + j)))
         == if Shift(Up(e, j), j) != e && Shift(Up(e / 2, j - 1), j - 1) == e / 2 then TailAnswer(m, data, res, e, j)
            else m.one
  {
    hide DyadicAnswer, Lawful;
    AnswersOne(m, data, res, DyadicInterval(e - 1, res + j));
    ShiftStep(Up(e, j), j - 1);
    if e % 2 != 0 {
      assert (e - 1) / 2 == e / 2;
      assert Up(e - 1, j) == Up(e, j);
      if Shift(Up(e, j), j) == e - 1 {
        OnStart(m, data, res, e - 1, j);
      } else {
        OffStart(m, data, res, e - 1, j);
      }
    }
  }

  /** The pieces cut off at the right end answer what the grain of the end contributes. */
  lemma {:induction false} RightCutsAnswer<T(!new)>(m: Monoid<T>, data: seq<(real, T)>, res: int, e: int, j: nat)
    requires Lawful(m)
    ensures Product(m, DyadicAnswers(m, data, res, RightCuts(e, res + j, j))) == TailAnswer(m, data, res, e, j)
    decreases j
  {
    hide DyadicAnswers, Lawful, TotalOver, NothingInside;
    if j == 0 {
      ShiftZero(e);
      AnswersOne(m, data, res, DyadicInterval(e, res));
    } else {
      RightCutsAnswer(m, data, res, e / 2, j - 1);
      RightCutAnswer(m, data, res, e, j);
      AnswersConcat(m, data, res, RightCuts(e / 2, res + j - 1, j - 1), RightCut(e, res + j));
      ShiftStep(Up(e, j), j - 1);
      UnitsOf(m, TailAnswer(m, data, res, e / 2, j - 1));
      UnitsOf(m, TailAnswer(m, data, res, e, j));
    }
  }

  lemma UnitsOf<T(!new)>(m: Monoid<T>, x: T)
    requires Lawful(m)
    ensures m.mul(m.one, x) == x && m.mul(x, m.one) == x
  {
    assert UnitAt(m, x);
  }

  /** x is the first grain that starts at or after place b, and y the one that holds place e. */
  ghost predicate Grains(b: int, e: int, j: nat, x: int, y: int) {
    Shift(x - 1, j) < b <= Shift(x, j) && Shift(y, j) <= e < Shift(y + 1, j)
  }

  lemma GrainsUp(b: int, e: int, j: nat, x: int, y: int)
    requires Grains(b, e, j, x, y)
    ensures y == Up(e, j)
    ensures j > 0 ==> Grains((b + 1) / 2, e / 2, j - 1, x, y)
    ensures j == 0 ==> x == b && y == e
  {
    UpWindow(e, j, y);
    if j == 0 {
      ShiftZero(x - 1);
      ShiftZero(x);
      ShiftZero(y);
      ShiftZero(y + 1);
    } else {
      ShiftStep(x - 1, j - 1);
      ShiftStep(x, j - 1);
      ShiftStep(y, j - 1);
      ShiftStep(y + 1, j - 1);
    }
  }

  ghost function Middle<T(!new)>(m: Monoid<T>, data: seq<(real, T)>, res: int, e: int, j: nat, x: int, y: int): T {
    if y < x then m.one
    else m.mul(Product(m, DyadicAnswers(m, data, res, Pieces(x, y, res))), TailAnswer(m, data, res, e, j))
  }

  lemma {:induction false} AnswersByGrain<T(!new)>(m: Monoid<T>, data: seq<(real, T)>, res: int, b: int, e: int,
                                                   j: nat, x: int, y: int)
    requires Lawful(m) && b <= e && Grains(b, e, j, x, y)
    ensures Product(m, DyadicAnswers(m, data, res, Pieces(b, e, res + j))) == Middle(m, data, res, e, j, x, y)
    decreases j
  {
    hide Lawful, DyadicAnswers;
    GrainsUp(b, e, j, x, y);
    ShiftZero(e);
    if b == e {
      AnswersEmpty(m, data, res, b, j, x, y);
    } else if j == 0 {
      UnitsOf(m, Product(m, DyadicAnswers(m, data, res, Pieces(b, e, res))));
    } else {
      AnswersByGrain(m, data, res, (b + 1) / 2, e / 2, j - 1, x, y);
      AnswersUpOne(m, data, res, b, e, j, x, y);
    }
  }

  lemma AnswersEmpty<T(!new)>(m: Monoid<T>, data: seq<(real, T)>, res: int, b: int, j: nat, x: int, y: int)
    requires Lawful(m) && Grains(b, b, j, x, y) && y == Up(b, j)
    ensures Product(m, DyadicAnswers(m, data, res, [])) == Middle(m, data, res, b, j, x, y)
  {
    AnswersOne(m, data, res, DyadicInterval(b, res));
    UnitsOf(m, m.one);
    ShiftMono(x - 1, y, j);
    ShiftMono(x, y, j);
  }

  lemma AnswersUpOne<T(!new)>(m: Monoid<T>, data: seq<(real, T)>, res: int, b: int, e: int, j: nat, x: int, y: int)
    requires Lawful(m) && b < e && j > 0 && Grains(b, e, j, x, y) && y == Up(e, j)
    requires Product(m, DyadicAnswers(m, data, res, Pieces((b + 1) / 2, e / 2, res + j - 1)))
          == Middle(m, data, res, e / 2, j - 1, x, y)
    ensures Product(m, DyadicAnswers(m, data, res, Pieces(b, e, res + j))) == Middle(m, data, res, e, j, x, y)
  {
    hide DyadicAnswers, TailAnswer;
    var left, mid, right := LeftCut(b, res + j), Pieces((b + 1) / 2, e / 2, res + j - 1), RightCut(e, res + j);
    AnswersConcat(m, data, res, left + mid, right);
    AnswersConcat(m, data, res, left, mid);
    LeftCutLost(m, data, res, b, j);
    var middle := Middle(m, data, res, e / 2, j - 1, x, y);
    UnitsOf(m, middle);
    if y < x {
      EndOffStart(m, data, res, b, e, j, x, y);
      UnitsOf(m, m.one);
    } else {
      RightCutsAnswer(m, data, res, e, j);
      RightCutsAnswer(m, data, res, e / 2, j - 1);
      AnswersConcat(m, data, res, RightCuts(e / 2, res + j - 1, j - 1), right);
      assert AssociativeAt(m, Product(m, DyadicAnswers(m, data, res, Pieces(x, y, res))),
                           TailAnswer(m, data, res, e / 2, j - 1), Product(m, DyadicAnswers(m, data, res, right)));
    }
  }

  lemma EndOffStart<T(!new)>(m: Monoid<T>, data: seq<(real, T)>, res: int, b: int, e: int, j: nat, x: int, y: int)
    requires Lawful(m) && b < e && j > 0 && Grains(b, e, j, x, y) && y == Up(e, j) && y < x
    ensures Product(m, DyadicAnswers(m, data, res, RightCut(e, res + j))) == m.one
  {
    hide DyadicAnswers, Lawful;
    RightCutAnswer(m, data, res, e, j);
    if y < x - 1 {
      ShiftMono(y + 1, x - 1, j);
    }
    assert Shift(y, j) < b;
    ShiftStep(Up(e, j), j - 1);
  }

  /** The grains that lie wholly in the query answer in full. Of the grain at its right end all is
      answered if there is an increment in the first piece of what the query has of it, and nothing
      otherwise. What the query has of the grain at its left end is not answered at all. */
  ghost function FinerAnswer<T(!new)>(m: Monoid<T>, data: seq<(real, T)>, res: int, e: int, r: int, x: int, y: int): T
    requires r > res
  {
    if y < x then m.one
    else m.mul(Total(m, data, Dyadic(x, res).Real(), Dyadic(y, res).Real()), TailAnswer(m, data, res, e, r - res))
  }

  lemma LayerAnswerIsFiner<T(!new)>(m: Monoid<T>, data: seq<(real, T)>, res: int, inf: real, sup: real, r: int,
                                    x: int, y: int)
    requires Lawful(m) && Sorted(data) && FloorAt(inf, r) <= FloorAt(sup, r) && r > res
    requires Grains(FloorAt(inf, r), FloorAt(sup, r), r - res, x, y)
    ensures LayerAnswer(m, data, res, inf, sup, r) == FinerAnswer(m, data, res, FloorAt(sup, r), r, x, y)
  {
    hide Lawful, DyadicAnswers, Pieces, TailAnswer, Grains;
    AnswersByGrain(m, data, res, FloorAt(inf, r), FloorAt(sup, r), r - res, x, y);
    if x <= y {
      CoarseAnswers(m, data, res, x, y, res);
      PiecesAreMaximal(x, y, res);
      TotalOfTiles(m, data, Pieces(x, y, res), x, y, res);
    }
  }

  /** The answer to a query, from the increments alone: the direct one if the query is not finer than
      the layer or all increments lie at starts of grains, and otherwise what its grains answer. */
  ghost predicate IsLayerAnswer<T(!new)>(m: Monoid<T>, data: seq<(real, T)>, res: int, inf: real, sup: real, r: int,
                                         lie: T) {
    && (r <= res || AtGrainStarts(data, res) ==> lie == QueryTotal(m, data, inf, sup, r))
    && (r > res ==> forall x, y :: Grains(FloorAt(inf, r), FloorAt(sup, r), r - res, x, y) ==>
            lie == FinerAnswer(m, data, res, FloorAt(sup, r), r, x, y))
  }

  lemma LayerAnswers<T(!new)>(m: Monoid<T>, data: seq<(real, T)>, res: int, inf: real, sup: real, r: int)
    requires Lawful(m) && Sorted(data) && FloorAt(inf, r) <= FloorAt(sup, r)
    ensures IsLayerAnswer(m, data, res, inf, sup, r, LayerAnswer(m, data, res, inf, sup, r))
  {
    hide LayerAnswer, QueryTotal, FinerAnswer, AtGrainStarts, Lawful, Grains, FloorAt;
    if r <= res {
      LayerAnswerIsTotal(m, data, res, inf, sup, r);
    } else if AtGrainStarts(data, res) {
      StartsAreTotals(m, data, res, inf, sup, r);
    }
    if r > res {
      forall x, y | Grains(FloorAt(inf, r), FloorAt(sup, r), r - res, x, y)
        ensures LayerAnswer(m, data, res, inf, sup, r) == FinerAnswer(m, data, res, FloorAt(sup, r), r, x, y)
      {
        LayerAnswerIsFiner(m, data, res, inf, sup, r, x, y);
      }
    }
  }

  /** There are such grains. */
  lemma GrainsExist(b: int, e: int, j: nat) returns (x: int, y: int)
    ensures Grains(b, e, j, x, y)
  {
    x, y := Up(b - 1, j) + 1, Up(e, j);
    UpWindow(b - 1, j, x - 1);
    UpWindow(e, j, y);
  }
}
