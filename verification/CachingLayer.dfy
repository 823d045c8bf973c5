/** A Lie increment stream behind the dyadic caching layer. */
module CachingLayer {
  import opened Wrappers
  import opened Powers
  import opened Dyadics
  import opened DyadicIntervals
  import opened Dissection
  import opened Monoids
  import opened Timeline
  import opened IncrementData
  import opened FinerQueries
  import opened QueryCost

  /** Every entry is at the stream's resolution and is what computing it afresh would give. */
  ghost predicate Transparent<T>(m: Monoid<T>, data: seq<(real, T)>, res: int, cache: map<DyadicInterval, T>) {
    forall k: DyadicInterval :: k in cache ==> k.power == res && cache[k] == TotalOver(m, data, k)
  }

  /** Zero answers can be left out of a product. */
  lemma {:induction false} ProductSkip<T(!new)>(m: Monoid<T>, xs: seq<T>, x: T)
    requires Lawful(m)
    ensures Product(m, xs + [x]) == m.mul(Product(m, xs), x)
    ensures x == m.one ==> Product(m, xs + [x]) == Product(m, xs)
  {
    ProductConcat(m, xs, [x]);
    ProductOne(m, x);
    assert UnitAt(m, Product(m, xs));
  }

  class LieIncrementStream<T(==, !new)> {
    const m: Monoid<T>
    const resolution: int
    var data: seq<(real, T)>
    var cache: map<DyadicInterval, T>

    ghost predicate Valid()
      reads this
    {
      Lawful(m) && Sorted(data) && Transparent(m, data, resolution, cache)
    }

    /** Reads the rows in order. The first row with a time wins; the parameter step always counts
        from the row before. */
    constructor (m: Monoid<T>, rows: seq<(real, T)>, addParam: Option<(T, real) -> T>, resolution: int)
      requires Lawful(m)
      ensures Valid() && this.m == m && this.resolution == resolution
      ensures FirstWins(rows, addParam, data)
    {
      this.m, this.resolution := m, resolution;
      data, cache := [], map[];
      new;
      hide FirstWins, Emplace, RowValue;
      NoRows(addParam);
      var previous := 0.0;
      for i := 0 to |rows|
        invariant Lawful(m) && cache == map[]
        invariant FirstWins(rows[..i], addParam, data)
        invariant previous == if i == 0 then 0.0 else rows[i - 1].0
      {
        var (index, lie) := rows[i];
        var value := match addParam
          case None => lie
          case Some(add) => add(lie, index - previous);
        FirstWinsStep(rows, addParam, data, i);
        RowValueIs(rows, addParam, i);
        data := Emplace(data, index, value);
        previous := index;
      }
      assert rows[..|rows|] == rows;
      FirstWinsSorted(rows, addParam, data);
    }

    /** The increments in the interval, by lower bound at both ends, multiplied up. */
    method LogSignatureImpl(interval: DyadicInterval) returns (lie: T)
      requires Valid()
      ensures lie == TotalOver(m, data, interval)
    {
      var inf, sup := interval.IncludedEnd().Real(), interval.ExcludedEnd().Real();
      RealOrderAtPower(interval.multiplier, interval.multiplier + 1, interval.power);
      BetweenIsSlice(data, inf, sup);
      var begin := LowerBound(Times(data), inf);
      var end := LowerBound(Times(data), sup);
      if begin == end {
        assert Values(data[begin..end]) == [];
        return m.one;
      }
      ghost var multiplied;
      lie, multiplied := Cbh(m, Values(data[begin..end]));
    }

    method IsEmpty(interval: DyadicInterval) returns (empty: bool)
      requires Valid()
      ensures empty <==> NothingInside(data, interval)
    {
      var inf, sup := interval.IncludedEnd().Real(), interval.ExcludedEnd().Real();
      RealOrderAtPower(interval.multiplier, interval.multiplier + 1, interval.power);
      var begin := LowerBound(Times(data), inf);
      var end := LowerBound(Times(data), sup);
      EmptyRange(data, inf, sup);
      return begin == end;
    }

    /** The recursive query on a dyadic interval. It may add to the cache; the answer does not
        depend on what the cache holds. */
    method LogSignatureDyadic(interval: DyadicInterval) returns (lie: T, ghost products: nat)
      requires Valid()
      modifies this`cache
      ensures Valid()
      ensures lie == DyadicAnswer(m, data, resolution, interval) && products == Joins(m, data, resolution, interval)
      decreases if interval.power > resolution then 1 else 0, Abs(resolution - interval.power)
    {
      hide NothingInside, TotalOver, Lawful, Sorted;
      var empty := IsEmpty(interval);
      if empty {
        NothingTotals(m, data, interval);
        return m.one, 0;
      }
      if interval.power == resolution {
        if interval !in cache {
          var computed := LogSignatureImpl(interval);
          cache := cache[interval := computed];
        }
        return cache[interval], 0;
      }
      if interval.power > resolution {
        var tmp := interval.Expanded(interval.power - resolution);
        RationalEqualsDecides(tmp.IncludedEnd(), interval.IncludedEnd());
        if RationalEquals(tmp.IncludedEnd(), interval.IncludedEnd()) {
          lie, products := LogSignatureDyadic(tmp);
          return;
        }
        return m.one, 0;
      }
      HalvesAre(interval);
      var lhs, leftProducts := LogSignatureDyadic(interval.ShrinkToContainedEnd());
      var rhs, rightProducts := LogSignatureDyadic(interval.ShrinkToOmittedEnd());
      TotalOfHalves(m, data, interval);
      UnitLaws(m, lhs, rhs);
      products := leftProducts + rightProducts;
      if lhs == m.one {
        return rhs, products;
      }
      if rhs == m.one {
        return lhs, products;
      }
      ProductPair(m, lhs, rhs);
      ghost var joining;
      lie, joining := Cbh(m, [lhs, rhs]);
      ProductsOfTwo(m, lhs, rhs);
      products := products + joining;
    }

    /** A query over any interval. With a context of another depth nothing is cached. */
    method LogSignature(inf: real, sup: real, r: int, sameDepth: bool) returns (lie: T, ghost products: nat)
      requires Valid() && inf <= sup
      modifies this`cache
      ensures Valid() && FloorAt(inf, r) <= FloorAt(sup, r)
      ensures r <= resolution || !sameDepth ==> lie == QueryTotal(m, data, inf, sup, r)
      ensures sameDepth ==> lie == LayerAnswer(m, data, resolution, inf, sup, r)
      ensures sameDepth ==> IsLayerAnswer(m, data, resolution, inf, sup, r, lie)
      ensures sameDepth ==> products == LayerProducts(m, data, resolution, Pieces(FloorAt(inf, r), FloorAt(sup, r), r))
    {
      hide Totals, QueryTotal, DyadicAnswer, DyadicAnswers, LayerAnswer, IsLayerAnswer;
      var dissection := ToDyadicIntervals(inf, sup, r);
      var lies: seq<T>;
      if !sameDepth {
        lies := ComputeAll(dissection);
        QueryFromPieces(m, data, inf, sup, r);
        lie, products := Cbh(m, lies);
        return;
      }
      ghost var joins, joining;
      lies, joins := QueryAll(dissection);
      lie, joining := Cbh(m, lies);
      products := joins + joining;
      AnswerIsProduct(m, data, resolution, inf, sup, r);
      LayerAnswers(m, data, resolution, inf, sup, r);
      if r <= resolution {
        LayerAnswerIsTotal(m, data, resolution, inf, sup, r);
      }
    }

    method ComputeAll(dissection: seq<DyadicInterval>) returns (lies: seq<T>)
      requires Valid()
      ensures lies == Totals(m, data, dissection)
    {
      hide TotalOver;
      lies := [];
      for i := 0 to |dissection|
        invariant |lies| == i
        invariant forall j :: 0 <= j < i ==> lies[j] == TotalOver(m, data, dissection[j])
      {
        var lie := LogSignatureImpl(dissection[i]);
        lies := lies + [lie];
      }
    }

    method QueryAll(dissection: seq<DyadicInterval>) returns (lies: seq<T>, ghost joins: nat)
      requires Valid()
      modifies this`cache
      ensures Valid()
      ensures Product(m, lies) == Product(m, DyadicAnswers(m, data, resolution, dissection))
      ensures NonOnes(m, lies) == NonOnes(m, DyadicAnswers(m, data, resolution, dissection))
      ensures joins == AllJoins(m, data, resolution, dissection)
    {
      hide DyadicAnswer, Joins, Product, Lawful;
      lies, joins := [], 0;
      assert DyadicAnswers(m, data, resolution, dissection[..0]) == [];
      for i := 0 to |dissection|
        invariant Valid()
        invariant Product(m, lies) == Product(m, DyadicAnswers(m, data, resolution, dissection[..i]))
        invariant NonOnes(m, lies) == NonOnes(m, DyadicAnswers(m, data, resolution, dissection[..i]))
        invariant joins == AllJoins(m, data, resolution, dissection[..i])
      {
        ghost var products;
        var lie;
        lie, products := LogSignatureDyadic(dissection[i]);
        assert dissection[..i + 1][..i] == dissection[..i];
        joins := joins + products;
        NonOnesAppend(m, lies, lie);
        NonOnesAppend(m, DyadicAnswers(m, data, resolution, dissection[..i]), lie);
        ProductSkip(m, lies, lie);
        ProductSkip(m, DyadicAnswers(m, data, resolution, dissection[..i]), lie);
        AnswersStep(m, data, resolution, dissection, i);
        if lie != m.one {
          lies := lies + [lie];
        }
      }
      assert dissection[..|dissection|] == dissection;
    }

    /** Any history of queries: every answer is the one a fresh stream would give, and the direct one
        for those that are not finer than the stream's resolution. */
    method RunQueries(queries: seq<(real, real, int)>) returns (answers: seq<T>)
      requires Valid()
      requires forall q :: q in queries ==> q.0 <= q.1
      modifies this`cache
      ensures Valid() && |answers| == |queries|
      ensures forall i :: 0 <= i < |queries| ==> AnswersQuery(m, data, resolution, queries[i], answers[i])
    {
      hide QueryTotal, LayerAnswer, IsLayerAnswer, AnswersQuery;
      answers := [];
      for i := 0 to |queries|
        invariant Valid() && |answers| == i
        invariant forall j :: 0 <= j < i ==> AnswersQuery(m, data, resolution, queries[j], answers[j])
      {
        var q := queries[i];
        assert q in queries;
        var lie, _ := LogSignature(q.0, q.1, q.2, true);
        IsAnswer(m, data, resolution, q, lie);
        answers := answers + [lie];
      }
    }
  }

  /** What a fresh stream answers, and the direct answer if the query is not finer than the stream. */
  ghost predicate AnswersQuery<T(!new)>(m: Monoid<T>, data: seq<(real, T)>, res: int, q: (real, real, int), answer: T) {
    && FloorAt(q.0, q.2) <= FloorAt(q.1, q.2)
    && answer == LayerAnswer(m, data, res, q.0, q.1, q.2)
    && IsLayerAnswer(m, data, res, q.0, q.1, q.2, answer)
  }

  lemma IsAnswer<T(!new)>(m: Monoid<T>, data: seq<(real, T)>, res: int, q: (real, real, int), answer: T)
    requires FloorAt(q.0, q.2) <= FloorAt(q.1, q.2) && answer == LayerAnswer(m, data, res, q.0, q.1, q.2)
    requires IsLayerAnswer(m, data, res, q.0, q.1, q.2, answer)
    ensures AnswersQuery(m, data, res, q, answer)
  {
  }

  lemma ProductsOfTwo<T>(m: Monoid<T>, a: T, b: T)
    requires a != m.one && b != m.one
    ensures Products(m, [a, b]) == 1
  {
    assert [a, b][..1] == [a] && [a][..0] == [];
    NonOnesStep(m, [a, b]);
    NonOnesStep(m, [a]);
  }

  lemma NonOnesAppend<T>(m: Monoid<T>, xs: seq<T>, x: T)
    ensures NonOnes(m, xs + [x]) == NonOnes(m, xs) + (if x == m.one then 0 else 1)
  {
    assert (xs + [x])[..|xs|] == xs;
  }

  lemma UnitLaws<T(!new)>(m: Monoid<T>, a: T, b: T)
    requires Lawful(m)
    ensures m.mul(m.one, b) == b && m.mul(a, m.one) == a
  {
    assert UnitAt(m, a) && UnitAt(m, b);
  }

  lemma EmptyRange<T(!new)>(data: seq<(real, T)>, inf: real, sup: real)
    requires Sorted(data) && inf <= sup
    ensures LowerBound(Times(data), inf) == LowerBound(Times(data), sup) <==> NothingIn(data, inf, sup)
  {
    var times := Times(data);
    assert Increasing(times);
    LowerBoundSeparates(times, inf);
    LowerBoundSeparates(times, sup);
    LowerBoundsOrdered(times, inf, sup);
    var begin, end := LowerBound(times, inf), LowerBound(times, sup);
    forall i | 0 <= i < |data|
      ensures inf <= data[i].0 < sup <==> begin <= i < end
    {
      assert times[i] == data[i].0;
    }
    if begin < end {
      assert inf <= data[begin].0 < sup;
    }
  }

  lemma AnswerIsProduct<T(!new)>(m: Monoid<T>, data: seq<(real, T)>, res: int, inf: real, sup: real, r: int)
    requires FloorAt(inf, r) <= FloorAt(sup, r)
    ensures LayerAnswer(m, data, res, inf, sup, r)
         == Product(m, DyadicAnswers(m, data, res, Pieces(FloorAt(inf, r), FloorAt(sup, r), r)))
  {
  }

  lemma AnswersStep<T(!new)>(m: Monoid<T>, data: seq<(real, T)>, res: int, pieces: seq<DyadicInterval>, i: nat)
    requires i < |pieces|
    ensures DyadicAnswers(m, data, res, pieces[..i + 1])
         == DyadicAnswers(m, data, res, pieces[..i]) + [DyadicAnswer(m, data, res, pieces[i])]
  {
  }
}
