/** How many multiplications a query through the caching layer takes. */
module QueryCost {
  import opened Powers
  import opened Dyadics
  import opened DyadicIntervals
  import opened Dissection
  import opened Monoids
  import opened Timeline
  import opened IncrementData

  /** The multiplications in a query on a dyadic interval: one wherever two halves are both not zero.
      The cache only has grains, so it saves none of them. */
  ghost function Joins<T(!new)>(m: Monoid<T>, data: seq<(real, T)>, res: int, d: DyadicInterval): nat
    decreases if d.power >= res then 0 else res - d.power
  {
    if d.power >= res || NothingInside(data, d) then 0
    else
      Joins(m, data, res, d.LeftHalf()) + Joins(m, data, res, d.RightHalf())
      + (if DyadicAnswer(m, data, res, d.LeftHalf()) != m.one
         && DyadicAnswer(m, data, res, d.RightHalf()) != m.one then 1 else 0)
  }

  /** The number of grains in an interval that hold an increment. */
  ghost function FilledGrains<T(!new)>(data: seq<(real, T)>, res: int, d: DyadicInterval): nat
    decreases if d.power >= res then 0 else res - d.power
  {
    if NothingInside(data, d) then 0
    else if d.power >= res then 1
    else FilledGrains(data, res, d.LeftHalf()) + FilledGrains(data, res, d.RightHalf())
  }

  ghost predicate NoZeroAt<T(!new)>(m: Monoid<T>, data: seq<(real, T)>, res: int, k: DyadicInterval) {
    k.power <= res && !NothingInside(data, k) ==> DyadicAnswer(m, data, res, k) != m.one
  }

  /** No interval down to the grains has increments that cancel out. */
  ghost predicate NoZero<T(!new)>(m: Monoid<T>, data: seq<(real, T)>, res: int) {
    forall k: DyadicInterval :: NoZeroAt(m, data, res, k)
  }

  lemma EmptyHalves<T(!new)>(data: seq<(real, T)>, d: DyadicInterval)
    ensures NothingInside(data, d) <==> NothingInside(data, d.LeftHalf()) && NothingInside(data, d.RightHalf())
  {
    HalvesMeet(d);
  }

  /** An empty interval answers zero. */
  lemma EmptyAnswersZero<T(!new)>(m: Monoid<T>, data: seq<(real, T)>, res: int, d: DyadicInterval)
    requires NothingInside(data, d)
    ensures DyadicAnswer(m, data, res, d) == m.one
  {
    NothingTotals(m, data, d);
  }

  /** A query on an interval takes fewer multiplications than it has filled grains, and exactly one
      fewer if nothing cancels out. */
  lemma {:induction false} JoinsCount<T(!new)>(m: Monoid<T>, data: seq<(real, T)>, res: int, d: DyadicInterval)
    requires d.power <= res
    ensures NothingInside(data, d) <==> FilledGrains(data, res, d) == 0
    ensures Joins(m, data, res, d) <= if FilledGrains(data, res, d) == 0 then 0 else FilledGrains(data, res, d) - 1
    ensures NoZero(m, data, res) ==>
              Joins(m, data, res, d) == if FilledGrains(data, res, d) == 0 then 0 else FilledGrains(data, res, d) - 1
    decreases res - d.power
  {
    if d.power < res {
      EmptyHalves(data, d);
      JoinsCount(m, data, res, d.LeftHalf());
      JoinsCount(m, data, res, d.RightHalf());
      hide DyadicAnswer, NothingInside;
      HalfAnswers(m, data, res, d.LeftHalf());
      HalfAnswers(m, data, res, d.RightHalf());
    }
  }

  lemma HalfAnswers<T(!new)>(m: Monoid<T>, data: seq<(real, T)>, res: int, k: DyadicInterval)
    ensures NothingInside(data, k) ==> DyadicAnswer(m, data, res, k) == m.one
    ensures NoZero(m, data, res) && k.power <= res && !NothingInside(data, k) ==> DyadicAnswer(m, data, res, k) != m.one
  {
    if NothingInside(data, k) {
      EmptyAnswersZero(m, data, res, k);
    } else if NoZero(m, data, res) {
      assert NoZeroAt(m, data, res, k);
    }
  }

  // ----- over the pieces of a query -----

  ghost function AllJoins<T(!new)>(m: Monoid<T>, data: seq<(real, T)>, res: int, pieces: seq<DyadicInterval>): nat {
    if pieces == [] then 0
    else AllJoins(m, data, res, pieces[..|pieces| - 1]) + Joins(m, data, res, pieces[|pieces| - 1])
  }

  ghost function AllFilled<T(!new)>(data: seq<(real, T)>, res: int, pieces: seq<DyadicInterval>): nat {
    if pieces == [] then 0
    else AllFilled(data, res, pieces[..|pieces| - 1]) + FilledGrains(data, res, pieces[|pieces| - 1])
  }

  /** The multiplications of a whole query: those for the pieces and those that put them together. */
  ghost function LayerProducts<T(!new)>(m: Monoid<T>, data: seq<(real, T)>, res: int,
                                        pieces: seq<DyadicInterval>): nat {
    AllJoins(m, data, res, pieces) + Products(m, DyadicAnswers(m, data, res, pieces))
  }

  lemma {:induction false} PiecesCount<T(!new)>(m: Monoid<T>, data: seq<(real, T)>, res: int,
                                                pieces: seq<DyadicInterval>)
    requires forall i :: 0 <= i < |pieces| ==> pieces[i].power <= res
    ensures AllJoins(m, data, res, pieces) + NonOnes(m, DyadicAnswers(m, data, res, pieces))
         <= AllFilled(data, res, pieces)
    ensures NoZero(m, data, res) ==>
              AllJoins(m, data, res, pieces) + NonOnes(m, DyadicAnswers(m, data, res, pieces))
                  == AllFilled(data, res, pieces)
    ensures NoZero(m, data, res) && AllFilled(data, res, pieces) > 0 ==>
            NonOnes(m, DyadicAnswers(m, data, res, pieces)) > 0
    decreases |pieces|
  {
    if pieces != [] {
      var n := |pieces| - 1;
      PiecesCount(m, data, res, pieces[..n]);
      JoinsCount(m, data, res, pieces[n]);
      HalfAnswers(m, data, res, pieces[n]);
      assert DyadicAnswers(m, data, res, pieces)[..n] == DyadicAnswers(m, data, res, pieces[..n]);
      hide DyadicAnswer, NothingInside, Joins, FilledGrains, NoZero;
      NonOnesStep(m, DyadicAnswers(m, data, res, pieces));
    }
  }

  /** If nothing cancels out, a query takes one multiplication less than there are filled grains in
      it, however coarse the pieces: so it keeps to a budget exactly if there are few enough. */
  lemma LayerProductsAreGrains<T(!new)>(m: Monoid<T>, data: seq<(real, T)>, res: int, b: int, e: int, r: int,
                                        budget: nat)
    requires b <= e && r <= res && NoZero(m, data, res)
    ensures var filled := AllFilled(data, res, Pieces(b, e, r));
            && LayerProducts(m, data, res, Pieces(b, e, r)) == (if filled == 0 then 0 else filled - 1)
            && (LayerProducts(m, data, res, Pieces(b, e, r)) <= budget <==> filled <= budget + 1)
  {
    var pieces := Pieces(b, e, r);
    forall i | 0 <= i < |pieces|
      ensures pieces[i].power <= res
    {
      PiecePowers(pieces[i], b, e, r);
    }
    hide Pieces;
    PiecesCount(m, data, res, pieces);
  }

  // ----- a query over the budget -----

  /** An increment of 1 at the start of every grain of [0, 1). */
  function Ticking(n: nat): seq<(real, int)> {
    seq(Pow2(n), k => (Dyadic(k, n).Real(), 1))
  }

  lemma TickingSorted(n: nat)
    ensures Sorted(Ticking(n))
  {
    forall i, j | 0 <= i < j < Pow2(n)
      ensures Ticking(n)[i].0 < Ticking(n)[j].0
    {
      RealOrderAtPower(i, j, n);
    }
  }

  lemma {:induction false} OnesAddUp(data: seq<(real, int)>, lo: real, hi: real)
    requires forall i :: 0 <= i < |data| ==> data[i].1 == 1
    ensures Total(Sums(), data, lo, hi) >= 0
    ensures Total(Sums(), data, lo, hi) == 0 <==> NothingIn(data, lo, hi)
    decreases |data|
  {
    if data != [] {
      OnesAddUp(data[1..], lo, hi);
      assert forall i :: 0 < i < |data| ==> data[i] == data[1..][i - 1];
      if lo <= data[0].0 < hi {
        var all := Between(data, lo, hi);
        assert all[0] == 1 && all[1..] == Between(data[1..], lo, hi);
        assert Product(Sums(), all) == 1 + Product(Sums(), all[1..]);
      } else {
        assert Between(data, lo, hi) == Between(data[1..], lo, hi);
      }
    }
  }

  /** Increments of 1 never cancel out. */
  lemma TickingHasNoZero(n: nat)
    ensures NoZero(Sums(), Ticking(n), n)
  {
    forall k: DyadicInterval
      ensures NoZeroAt(Sums(), Ticking(n), n, k)
    {
      OnesAddUp(Ticking(n), k.IncludedEnd().Real(), k.ExcludedEnd().Real());
    }
  }

  /** Every grain in the unit interval is filled. */
  lemma {:induction false} TickingFillsAll(n: nat, d: DyadicInterval)
    requires 0 <= d.power <= n && 0 <= d.multiplier < Pow2(d.power)
    ensures FilledGrains(Ticking(n), n, d) == Pow2(n - d.power)
    decreases n - d.power
  {
    HoldsTick(n, d);
    if d.power < n {
      TickingFillsAll(n, d.LeftHalf());
      TickingFillsAll(n, d.RightHalf());
    }
  }

  lemma HoldsTick(n: nat, d: DyadicInterval)
    requires 0 <= d.power <= n && 0 <= d.multiplier < Pow2(d.power)
    ensures !NothingInside(Ticking(n), d)
  {
    LoInUnit(n, d);
    hide Shift, Pow2;
    WindowReal(d, n);
    RealOrderAtPower(d.multiplier, d.multiplier + 1, d.power);
    assert Ticking(n)[d.Lo(n)].0 == d.IncludedEnd().Real();
  }

  lemma LoInUnit(n: nat, d: DyadicInterval)
    requires 0 <= d.power <= n && 0 <= d.multiplier < Pow2(d.power)
    ensures 0 <= d.Lo(n) < Pow2(n)
  {
    Pow2Add(d.power, n - d.power);
    assert Shift(Pow2(d.power), n - d.power) == Pow2(n) && Shift(0, n - d.power) == 0;
    hide Shift, Pow2;
    ShiftMono(0, d.multiplier, n - d.power);
    ShiftLess(d.multiplier, Pow2(d.power), n - d.power);
  }

  /** A query over the whole unit interval takes 2^n - 1 multiplications through the caching layer,
      more than 2n from n = 3 on. */
  lemma UnitQueryOverBudget(n: nat)
    requires n >= 3
    ensures Lawful(Sums()) && Sorted(Ticking(n))
    ensures LayerProducts(Sums(), Ticking(n), n, Pieces(0, Pow2(n), n)) == Pow2(n) - 1 > 2 * n
  {
    SumsLawful();
    TickingSorted(n);
    TickingHasNoZero(n);
    hide Lawful, Sorted, Ticking;
    assert Shift(0, n) == 0 && Shift(1, n) == Pow2(n);
    WholeUnit(0, Pow2(n), n, 0, n);
    WholeUnitPiece(n);
    TickingFillsAll(n, DyadicInterval(0, 0));
    hide NoZero, Pieces, FilledGrains;
    LayerProductsAreGrains(Sums(), Ticking(n), n, 0, Pow2(n), n, 0);
    assert [DyadicInterval(0, 0)][..0] == [];
    PowersOutgrow(n);
  }

  lemma WholeUnitPiece(n: nat)
    ensures Pieces(0, Pow2(n), n) == [DyadicInterval(0, 0)]
  {
    UnitPiece(n, n);
  }

  lemma {:induction false} UnitPiece(n: nat, m: int)
    ensures Pieces(0, Pow2(n), m) == [DyadicInterval(0, m - n)]
    decreases n
  {
    hide Pieces;
    if n > 0 {
      EvenPieces(Pow2(n - 1), m);
      UnitPiece(n - 1, m - 1);
    } else {
      SinglePiece(m);
    }
  }

  lemma SinglePiece(m: int)
    ensures Pieces(0, 1, m) == [DyadicInterval(0, m)]
  {
    assert Pieces(0, 0, m - 1) == [];
  }

  lemma EvenPieces(half: nat, m: int)
    requires half > 0
    ensures Pieces(0, 2 * half, m) == Pieces(0, half, m - 1)
  {
    assert LeftCut(0, m) == [] && RightCut(2 * half, m) == [];
  }

  lemma {:induction false} PowersOutgrow(n: nat)
    requires n >= 3
    ensures Pow2(n) - 1 > 2 * n
    decreases n
  {
    if n > 3 {
      PowersOutgrow(n - 1);
    } else {
      assert Pow2(3) == 2 * Pow2(2) && Pow2(2) == 2 * Pow2(1) && Pow2(1) == 2 * Pow2(0);
    }
  }
}
