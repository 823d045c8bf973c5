/** The increments of a Lie increment stream and what the caching layer should answer on them. */
module IncrementData {
  import opened Wrappers
  import opened Powers
  import opened Dyadics
  import opened DyadicIntervals
  import opened Dissection
  import opened Monoids
  import opened Timeline

  /** `flat_map::try_emplace`: inserts unless the time is there already. */
  function Emplace<T>(data: seq<(real, T)>, t: real, v: T): seq<(real, T)> {
    var at := LowerBound(Times(data), t);
    if at < |data| && data[at].0 == t then data
    else data[..at] + [(t, v)] + data[at..]
  }

  lemma EmplaceSorted<T(!new)>(data: seq<(real, T)>, t: real, v: T)
    requires Sorted(data)
    ensures Sorted(Emplace(data, t, v))
    ensures t in Times(data) ==> Emplace(data, t, v) == data
    ensures t !in Times(data) ==> (t, v) in Emplace(data, t, v)
    ensures forall e :: e in Emplace(data, t, v) <==> e in data || (t !in Times(data) && e == (t, v))
  {
    var times := Times(data);
    var at := LowerBound(times, t);
    assert Increasing(times);
    LowerBoundSeparates(times, t);
    forall i | 0 <= i < |data|
      ensures i < at <==> data[i].0 < t
    {
      assert times[i] == data[i].0;
    }
    var result := Emplace(data, t, v);
    if at < |data| && data[at].0 == t {
      assert times[at] == t;
    } else {
      NotAmong(data, t, at);
      assert result[at] == (t, v);
      SplitMembers(data, at, (t, v));
    }
  }

  lemma NotAmong<T(!new)>(data: seq<(real, T)>, t: real, at: nat)
    requires Sorted(data) && at <= |data|
    requires forall i :: 0 <= i < |data| ==> (i < at <==> data[i].0 < t)
    requires at < |data| ==> data[at].0 != t
    ensures t !in Times(data)
  {
    forall i | 0 <= i < |data|
      ensures Times(data)[i] != t
    {
      assert i > at ==> data[at].0 < data[i].0;
    }
  }

  lemma SplitMembers<E(!new)>(s: seq<E>, at: nat, e: E)
    requires at <= |s|
    ensures forall x :: x in s[..at] + [e] + s[at..] <==> x in s || x == e
  {
    assert s == s[..at] + s[at..];
  }

  /** The value that the i-th row would bring: with a parameter channel the step from the row
      before it is put in. */
  function RowValue<T>(rows: seq<(real, T)>, addParam: Option<(T, real) -> T>, i: nat): T
    requires i < |rows|
  {
    match addParam
    case None => rows[i].1
    case Some(add) => add(rows[i].1, rows[i].0 - (if i == 0 then 0.0 else rows[i - 1].0))
  }

  /** Among rows with the same time the first one wins. */
  ghost predicate FirstWins<T(!new)>(rows: seq<(real, T)>, addParam: Option<(T, real) -> T>, data: seq<(real, T)>) {
    Sorted(data) && forall e :: e in data <==> FromFirst(rows, addParam, e)
  }

  ghost predicate FromFirst<T(!new)>(rows: seq<(real, T)>, addParam: Option<(T, real) -> T>, e: (real, T)) {
    exists i :: 0 <= i < |rows| && FirstIs(rows, addParam, i, e)
  }

  /** The i-th row is the first with its time, and it brings e. */
  ghost predicate FirstIs<T(!new)>(rows: seq<(real, T)>, addParam: Option<(T, real) -> T>, i: nat, e: (real, T))
    requires i < |rows|
  {
    IsFirst(rows, i) && e == (rows[i].0, RowValue(rows, addParam, i))
  }

  ghost predicate IsFirst<T(!new)>(rows: seq<(real, T)>, i: nat)
    requires i < |rows|
  {
    forall j :: 0 <= j < i ==> rows[j].0 != rows[i].0
  }

  lemma TimesMember<T(!new)>(data: seq<(real, T)>, t: real)
    ensures t in Times(data) <==> exists e :: e in data && e.0 == t
  {
    if t in Times(data) {
      var i :| 0 <= i < |data| && Times(data)[i] == t;
      assert data[i] in data;
    }
    if e :| e in data && e.0 == t {
      var i :| 0 <= i < |data| && data[i] == e;
      assert Times(data)[i] == t;
    }
  }

  lemma PrefixFirst<T(!new)>(rows: seq<(real, T)>, addParam: Option<(T, real) -> T>, n: nat, i: nat, e: (real, T))
    requires i < n < |rows|
    ensures FirstIs(rows[..n], addParam, i, e) <==> FirstIs(rows[..n + 1], addParam, i, e)
  {
    var front, all := rows[..n], rows[..n + 1];
    assert forall j :: 0 <= j <= i ==> front[j] == all[j];
    assert IsFirst(front, i) <==> IsFirst(all, i);
  }

  /** One more row brings its entry if no row before it has its time. */
  lemma FromFirstStep<T(!new)>(rows: seq<(real, T)>, addParam: Option<(T, real) -> T>, n: nat, e: (real, T))
    requires n < |rows|
    ensures FromFirst(rows[..n + 1], addParam, e) <==>
            FromFirst(rows[..n], addParam, e) || FirstIs(rows[..n + 1], addParam, n, e)
  {
    var front, all := rows[..n], rows[..n + 1];
    if FromFirst(front, addParam, e) {
      var i :| 0 <= i < n && FirstIs(front, addParam, i, e);
      PrefixFirst(rows, addParam, n, i, e);
    }
    if FromFirst(all, addParam, e) {
      var i :| 0 <= i <= n && FirstIs(all, addParam, i, e);
      if i < n {
        PrefixFirst(rows, addParam, n, i, e);
      }
    }
  }

  lemma FirstWinsStep<T(!new)>(rows: seq<(real, T)>, addParam: Option<(T, real) -> T>, data: seq<(real, T)>, n: nat)
    requires n < |rows| && FirstWins(rows[..n], addParam, data)
    ensures FirstWins(rows[..n + 1], addParam, Emplace(data, rows[n].0, RowValue(rows, addParam, n)))
  {
    var t, v := rows[n].0, RowValue(rows, addParam, n);
    EmplaceSorted(data, t, v);
    NewTimeIsFirst(rows, addParam, data, n);
    assert RowValue(rows[..n + 1], addParam, n) == v;
    forall e
      ensures e in Emplace(data, t, v) <==> FromFirst(rows[..n + 1], addParam, e)
    {
      FromFirstStep(rows, addParam, n, e);
      assert FirstIs(rows[..n + 1], addParam, n, e) <==> IsFirst(rows[..n + 1], n) && e == (t, v);
    }
  }

  /** A row brings a new time exactly when it is the first with it. */
  lemma NewTimeIsFirst<T(!new)>(rows: seq<(real, T)>, addParam: Option<(T, real) -> T>, data: seq<(real, T)>, n: nat)
    requires n < |rows| && FirstWins(rows[..n], addParam, data)
    ensures IsFirst(rows[..n + 1], n) <==> rows[n].0 !in Times(data)
  {
    var t := rows[n].0;
    var front := rows[..n];
    TimesMember(data, t);
    if !IsFirst(rows[..n + 1], n) {
      var i :| 0 <= i < n && rows[..n + 1][i].0 == t;
      assert front[i].0 == t;
      var j := FirstWith(front, t);
      var e := (t, RowValue(front, addParam, j));
      assert FirstIs(front, addParam, j, e);
      assert e in data;
    }
    if t in Times(data) {
      var e :| e in data && e.0 == t;
      var i :| 0 <= i < n && FirstIs(front, addParam, i, e);
      assert rows[..n + 1][i].0 == t;
    }
  }

  lemma {:induction false} FirstWith<T(!new)>(rows: seq<(real, T)>, t: real) returns (j: nat)
    requires exists i :: 0 <= i < |rows| && rows[i].0 == t
    ensures j < |rows| && rows[j].0 == t && IsFirst(rows, j)
    decreases |rows|
  {
    if rows[0].0 == t {
      j := 0;
    } else {
      var i :| 0 <= i < |rows| && rows[i].0 == t;
      assert rows[1..][i - 1].0 == t;
      var k := FirstWith(rows[1..], t);
      j := k + 1;
      assert forall l :: 1 <= l < j ==> rows[l] == rows[1..][l - 1];
    }
  }

  lemma NoRows<T(!new)>(addParam: Option<(T, real) -> T>)
    ensures FirstWins([], addParam, [])
  {
  }

  lemma FirstWinsSorted<T(!new)>(rows: seq<(real, T)>, addParam: Option<(T, real) -> T>, data: seq<(real, T)>)
    requires FirstWins(rows, addParam, data)
    ensures Sorted(data)
  {
  }

  lemma RowValueIs<T(!new)>(rows: seq<(real, T)>, addParam: Option<(T, real) -> T>, i: nat)
    requires i < |rows|
    ensures addParam.None? ==> RowValue(rows, addParam, i) == rows[i].1
    ensures addParam.Some? ==>
              RowValue(rows, addParam, i)
                  == addParam.value(rows[i].1, rows[i].0 - (if i == 0 then 0.0 else rows[i - 1].0))
  {
  }

  // ----- the parameter channel -----

  function SumOf<T>(phi: T -> real, values: seq<T>): real {
    if values == [] then 0.0 else SumOf(phi, values[..|values| - 1]) + phi(values[|values| - 1])
  }

  function RowValues<T>(rows: seq<(real, T)>, addParam: Option<(T, real) -> T>): seq<T> {
    seq(|rows|, i requires 0 <= i < |rows| => RowValue(rows, addParam, i))
  }

  /** The parameter component of a value is set to the step. */
  ghost predicate SetsStep<T(!new)>(add: (T, real) -> T, phi: T -> real) {
    forall v: T, step: real :: phi(add(v, step)) == step
  }

  /** The steps of the parameter channel add up to the time of the last row. */
  lemma {:induction false} StepsTelescope<T(!new)>(rows: seq<(real, T)>, add: (T, real) -> T, phi: T -> real)
    requires SetsStep(add, phi)
    ensures SumOf(phi, RowValues(rows, Some(add))) == if rows == [] then 0.0 else rows[|rows| - 1].0
    decreases |rows|
  {
    if rows != [] {
      var n := |rows| - 1;
      StepsTelescope(rows[..n], add, phi);
      assert RowValues(rows, Some(add))[..n] == RowValues(rows[..n], Some(add));
    }
  }

  // ----- answers -----

  ghost predicate NothingIn<T(!new)>(data: seq<(real, T)>, lo: real, hi: real) {
    forall i :: 0 <= i < |data| ==> !(lo <= data[i].0 < hi)
  }

  ghost predicate NothingInside<T(!new)>(data: seq<(real, T)>, d: DyadicInterval) {
    NothingIn(data, d.IncludedEnd().Real(), d.ExcludedEnd().Real())
  }

  /** What the caching layer answers on a dyadic interval. Beyond its own resolution it hands out
      the value of the whole grain for the part that starts with it, and nothing for the rest. */
  ghost function DyadicAnswer<T(!new)>(m: Monoid<T>, data: seq<(real, T)>, res: int, d: DyadicInterval): T {
    if d.power <= res then TotalOver(m, data, d)
    else
      var grain := d.Expanded(d.power - res);
      if NothingInside(data, d) then m.one
      else if grain.IncludedEnd().Real() == d.IncludedEnd().Real() then TotalOver(m, data, grain)
      else m.one
  }

  lemma NothingTotals<T(!new)>(m: Monoid<T>, data: seq<(real, T)>, d: DyadicInterval)
    requires NothingInside(data, d)
    ensures TotalOver(m, data, d) == m.one
  {
    BetweenEmpty(data, d.IncludedEnd().Real(), d.ExcludedEnd().Real());
  }

  ghost function DyadicAnswers<T(!new)>(m: Monoid<T>, data: seq<(real, T)>, res: int,
                                        pieces: seq<DyadicInterval>): seq<T> {
    seq(|pieces|, i requires 0 <= i < |pieces| => DyadicAnswer(m, data, res, pieces[i]))
  }

  lemma CoarseAnswers<T(!new)>(m: Monoid<T>, data: seq<(real, T)>, res: int, b: int, e: int, r: int)
    requires b <= e && r <= res
    ensures DyadicAnswers(m, data, res, Pieces(b, e, r)) == Totals(m, data, Pieces(b, e, r))
  {
    forall i | 0 <= i < |Pieces(b, e, r)|
      ensures Pieces(b, e, r)[i].power <= res
    {
      PiecePowers(Pieces(b, e, r)[i], b, e, r);
    }
  }

  /** What the caching layer answers on any interval. */
  ghost function LayerAnswer<T(!new)>(m: Monoid<T>, data: seq<(real, T)>, res: int, inf: real, sup: real, r: int): T
    requires FloorAt(inf, r) <= FloorAt(sup, r)
  {
    Product(m, DyadicAnswers(m, data, res, Pieces(FloorAt(inf, r), FloorAt(sup, r), r)))
  }

  /** At its own resolution and below that is the direct answer ... */
  lemma LayerAnswerIsTotal<T(!new)>(m: Monoid<T>, data: seq<(real, T)>, res: int, inf: real, sup: real, r: int)
    requires Lawful(m) && Sorted(data) && FloorAt(inf, r) <= FloorAt(sup, r) && r <= res
    ensures LayerAnswer(m, data, res, inf, sup, r) == QueryTotal(m, data, inf, sup, r)
  {
    CoarseAnswers(m, data, res, FloorAt(inf, r), FloorAt(sup, r), r);
    QueryFromPieces(m, data, inf, sup, r);
  }

  /** ... and nowhere else: at a finer resolution an increment off the start of its grain is lost. */
  lemma FinerResolutionLoses<T(!new)>(m: Monoid<T>, res: int, r: int, v: T)
    requires Lawful(m) && r > res
    ensures var data := [(Dyadic(1, r).Real(), v)];
            && Sorted(data)
            && DyadicAnswer(m, data, res, DyadicInterval(1, r)) == m.one
            && TotalOver(m, data, DyadicInterval(1, r)) == v
  {
    var d := DyadicInterval(1, r);
    var data := [(Dyadic(1, r).Real(), v)];
    RealOrderAtPower(1, 2, r);
    assert data[0].0 == d.IncludedEnd().Real();
    assert Between(data, d.IncludedEnd().Real(), d.ExcludedEnd().Real()) == [v];
    ProductOne(m, v);
    ExpandedIs(d, r - res);
    assert Up(1, r - res) == Up(1 / 2, r - res - 1);
    UpWindow(0, r - res - 1, 0);
    assert Shift(0, r - res - 1) == 0;
    assert d.Expanded(r - res).multiplier == 0;
    ZeroReal(Dyadic(0, res));
    ZeroReal(Dyadic(1, r));
  }

  /** So the layer gives the direct answer on every increment data exactly when the resolution
      asked for is not finer than its own. */
  lemma DirectExactlyUpToResolution<T(!new)>(m: Monoid<T>, res: int, r: int, v: T)
    requires Lawful(m) && v != m.one
    ensures (forall data: seq<(real, T)>, k: int :: Sorted(data) ==>
               DyadicAnswer(m, data, res, DyadicInterval(k, r)) == TotalOver(m, data, DyadicInterval(k, r)))
       <==> r <= res
  {
    if r > res {
      FinerResolutionLoses(m, res, r, v);
      var data := [(Dyadic(1, r).Real(), v)];
      assert DyadicAnswer(m, data, res, DyadicInterval(1, r)) != TotalOver(m, data, DyadicInterval(1, r));
    }
  }
}
