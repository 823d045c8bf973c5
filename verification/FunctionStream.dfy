/** A lazily grown stream whose values a function of the interval gives. */
module FunctionStream {
  import opened Powers
  import opened DyadicIntervals
  import opened Dissection
  import opened Monoids
  import opened DynamicTree
  import opened DynamicGrowth
  import opened DynamicHooks
  import opened DynamicBalance
  import opened DynamicFrame
  import opened DynamicGrains
  import opened DynamicRuns
  import opened DynamicValues
  import opened Wrappers
  import DynamicStream

  /** All hooks ask the function. They are exact if and only if it is additive (AskingIsExact). */
  method Make<T(==, !new)>(m: Monoid<T>, f: New<T>, supportInf: real, supportSup: real)
    returns (s: DynamicStream.DynamicStream<T>)
    ensures fresh(s) && s.Valid() && s.Faithful() && s.tree == map[]
    ensures s.m == m && s.held == Given(f) && s.supportInf == supportInf && s.supportSup == supportSup
    ensures s.AllHooks() == Asking(m, f)
    ensures s.Exact() <==> Additive(m, f)
  {
    s := new DynamicStream.DynamicStream(m, f, f, AskAgain(f), supportInf, supportSup, Given(f));
    AskingIsExact(m, f);
  }

  /** A query on a stream with an additive function is the product of the function over its pieces,
      whatever has been asked before. */
  method LogSignature<T(==, !new)>(s: DynamicStream.DynamicStream<T>, f: New<T>, inf: real, sup: real, r: int)
    returns (lie: T)
    requires Lawful(s.m) && s.Valid() && s.Faithful() && s.Exact() && s.held == Given(f)
    requires inf <= sup && s.Answerable(inf, sup, r)
    modifies s
    ensures s.Valid() && s.Faithful() && FloorAt(inf, r) <= FloorAt(sup, r)
    ensures lie == if s.Outside(inf, sup) then s.m.one
                   else Product(s.m, ValuesOf(f, Pieces(FloorAt(inf, r), FloorAt(sup, r), r)))
  {
    FloorAtMono(inf, sup, r);
    lie := s.LogSignature(inf, sup, r);
    if !s.Outside(inf, sup) {
      AnswerIsFunction(s.m, f, s.tree, inf, sup, r);
    }
  }

  // ----- any function -----

  /** What a query at resolution r should say: the product of the function over its grains. */
  ghost predicate IsGrainAnswer<T>(m: Monoid<T>, f: New<T>, inf: real, sup: real, r: int, lie: T) {
    FloorAt(inf, r) <= FloorAt(sup, r) && lie == Product(m, GrainValues(f, FloorAt(inf, r), FloorAt(sup, r), r))
  }

  ghost predicate NoneJustAbovePieces(grown: set<DyadicInterval>, inf: real, sup: real, r: int)
    requires FloorAt(inf, r) <= FloorAt(sup, r)
  {
    var pieces := Pieces(FloorAt(inf, r), FloorAt(sup, r), r);
    forall i :: 0 <= i < |pieces| ==> NoneJustAbove(grown, pieces[i], r)
  }

  /** A query with any function, additive or not, on a tree that is nowhere finer than the query. */
  method LogSignatureByGrains<T(==, !new)>(s: DynamicStream.DynamicStream<T>, f: New<T>, inf: real, sup: real, r: int)
    returns (lie: T)
    requires Lawful(s.m) && s.Valid() && s.AllHooks() == Asking(s.m, f)
    requires inf <= sup && s.Answerable(inf, sup, r) && NoFiner(s.tree, r)
    modifies s
    ensures s.Valid() && NoFiner(s.tree, r) && FloorAt(inf, r) <= FloorAt(sup, r)
    ensures s.Outside(inf, sup) ==> lie == s.m.one && s.tree == old(s.tree) && s.top == old(s.top)
                                    && s.grown == old(s.grown)
    ensures !s.Outside(inf, sup) ==>
              && GrownFrom(old(s.tree), old(s.top), old(s.grown), s.tree, s.top, s.grown,
                           Pieces(FloorAt(inf, r), FloorAt(sup, r), r))
              && (NoneJustAbovePieces(s.grown, inf, sup, r) ==> IsGrainAnswer(s.m, f, inf, sup, r, lie))
  {
    hide Linked, Accurate, Balanced, NoFiner, AllAccurate, GrownFrom, LeavesAsk, NotRefinedBeyond, Pieces, IsRun,
      FloorAt, GrainValues, NoneJustAbove, NoneJustAbovePieces, Lawful;
    FloorAtMono(inf, sup, r);
    lie := s.LogSignature(inf, sup, r);
    StillNotFiner(old(s.tree), s.tree, r);
    if !s.Outside(inf, sup) {
      GrainAnswer(s, f, inf, sup, r, lie);
    }
  }

  lemma StillNotFiner<T>(before: Tree<T>, after: Tree<T>, n: int)
    requires NotRefinedBeyond(before, after, n) && NoFiner(before, n)
    ensures NoFiner(after, n)
  {
  }

  lemma GrainAnswer<T(!new)>(s: DynamicStream.DynamicStream<T>, f: New<T>, inf: real, sup: real, r: int, lie: T)
    requires Lawful(s.m) && s.Valid() && s.AllHooks() == Asking(s.m, f) && NoFiner(s.tree, r)
    requires Answered(s.tree, inf, sup, r) && lie == Answer(s.m, s.tree, inf, sup, r)
    requires AllAccurate(s.tree, Pieces(FloorAt(inf, r), FloorAt(sup, r), r), r)
    ensures NoneJustAbovePieces(s.grown, inf, sup, r) ==> IsGrainAnswer(s.m, f, inf, sup, r, lie)
  {
    hide Linked, Accurate, Balanced, NoFiner, AllAccurate, LeavesAsk, Pieces, IsRun, FloorAt, GrainValues,
      NoneJustAbove, Lawful;
    var b, e := FloorAt(inf, r), FloorAt(sup, r);
    if b == e {
      NoGrains(f, b, r);
      NoPiecesAt(b, r);
    } else if NoneJustAbovePieces(s.grown, inf, sup, r) {
      SomePiece(s.tree, b, e, r);
      RunAsks(s.m, f, s.run, |s.run| - 1);
      PiecesAreMaximal(b, e, r);
      TilesAreGrains(s.m, f, s.tree, s.top, s.grown, Pieces(b, e, r), b, e, r);
    }
  }

  lemma NoPiecesAt(b: int, r: int)
    ensures Pieces(b, b, r) == []
  {
  }

  lemma SomePiece<T>(tree: Tree<T>, b: int, e: int, r: int)
    requires b < e && AllIn(tree, Pieces(b, e, r))
    ensures tree != map[]
  {
    PiecesAreMaximal(b, e, r);
    var pieces := Pieces(b, e, r);
    assert pieces[0] in tree;
  }

  /** The first query on a stream: whatever the function, the answer is its product over the grains. */
  method FreshAnswer<T(==, !new)>(m: Monoid<T>, f: New<T>, supportInf: real, supportSup: real, inf: real, sup: real,
                                  r: int)
    returns (lie: T)
    requires Lawful(m) && inf <= sup && OnOneSide(inf, sup, r)
    ensures if sup < supportInf || inf >= supportSup then lie == m.one else IsGrainAnswer(m, f, inf, sup, r, lie)
  {
    hide FloorAt, Pieces;
    var s := Make(m, f, supportInf, supportSup);
    lie := LogSignatureByGrains(s, f, inf, sup, r);
    if !s.Outside(inf, sup) {
      FreshGrown(s.tree, s.top, s.grown, inf, sup, r);
    }
  }

  ghost predicate OnOneSide(inf: real, sup: real, r: int) {
    FloorAt(inf, r) >= 0 || FloorAt(sup, r) <= 0
  }

  lemma FreshGrown<T>(tree: Tree<T>, top: DyadicInterval, grown: set<DyadicInterval>, inf: real, sup: real, r: int)
    requires FloorAt(inf, r) <= FloorAt(sup, r)
    requires exists t, g :: GrownFrom(map[], t, g, tree, top, grown, Pieces(FloorAt(inf, r), FloorAt(sup, r), r))
    ensures NoneJustAbovePieces(grown, inf, sup, r)
  {
    hide FloorAt, Pieces;
    var b, e := FloorAt(inf, r), FloorAt(sup, r);
    forall i | 0 <= i < |Pieces(b, e, r)|
      ensures NoneJustAbove(grown, Pieces(b, e, r)[i], r)
    {
      NoneInPieces(grown, b, e, r, i);
    }
  }

  /** The interval that a history of queries asks for first. */
  ghost function FirstAsked(queries: seq<(real, real)>, supportInf: real, supportSup: real, r: int)
    : Option<DyadicInterval>
  {
    if queries == [] then None
    else
      var before := FirstAsked(queries[..|queries| - 1], supportInf, supportSup, r);
      var (inf, sup) := queries[|queries| - 1];
      if before.Some? then before
      else if sup < supportInf || inf >= supportSup || FloorAt(inf, r) >= FloorAt(sup, r) then None
      else Some(FirstPiece(FloorAt(inf, r), FloorAt(sup, r), r))
  }

  ghost function FirstPiece(b: int, e: int, r: int): DyadicInterval
    requires b < e
  {
    PiecesAreMaximal(b, e, r);
    Pieces(b, e, r)[0]
  }

  ghost predicate StartsCoarse(queries: seq<(real, real)>, supportInf: real, supportSup: real, r: int) {
    match FirstAsked(queries, supportInf, supportSup, r)
    case None => true
    case Some(d) => d.power < r
  }

  ghost predicate AllOnOneSide(queries: seq<(real, real)>, r: int) {
    && (forall i :: 0 <= i < |queries| ==> queries[i].0 <= queries[i].1)
    && (AllRight(queries, r) || forall i :: 0 <= i < |queries| ==> FloorAt(queries[i].1, r) <= 0)
  }

  ghost predicate AllRight(queries: seq<(real, real)>, r: int) {
    forall i :: 0 <= i < |queries| ==> FloorAt(queries[i].0, r) >= 0
  }

  lemma QuerySide(queries: seq<(real, real)>, r: int, i: nat)
    requires AllOnOneSide(queries, r) && i < |queries|
    ensures queries[i].0 <= queries[i].1 && FloorAt(queries[i].0, r) <= FloorAt(queries[i].1, r)
    ensures if AllRight(queries, r) then FloorAt(queries[i].0, r) >= 0 else FloorAt(queries[i].1, r) <= 0
  {
    hide FloorAt;
    FloorAtMono(queries[i].0, queries[i].1, r);
  }

  ghost predicate HistoryAnswered<T>(m: Monoid<T>, f: New<T>, queries: seq<(real, real)>, supportInf: real,
                                     supportSup: real, r: int, answers: seq<T>) {
    && |answers| == |queries|
    && forall i :: 0 <= i < |queries| ==>
         if queries[i].1 < supportInf || queries[i].0 >= supportSup then answers[i] == m.one
         else IsGrainAnswer(m, f, queries[i].0, queries[i].1, r, answers[i])
  }

  /** Any history of queries at one resolution, on one side of zero, with any function: if the first
      interval asked for is longer than a grain, every answer is the product of the function over the
      grains of its query. (A root grown from a single grain keeps the value the function gives it.) */
  method RunQueriesAt<T(==, !new)>(m: Monoid<T>, f: New<T>, supportInf: real, supportSup: real,
                                   queries: seq<(real, real)>, r: int)
    returns (answers: seq<T>)
    requires Lawful(m) && AllOnOneSide(queries, r)
    ensures |answers| == |queries|
    ensures StartsCoarse(queries, supportInf, supportSup, r) ==>
              HistoryAnswered(m, f, queries, supportInf, supportSup, r, answers)
  {
    hide FloorAt, Pieces, IsGrainAnswer, GrownAbove, NoFiner, Lawful, IsRun, Linked, Accurate, Balanced, GrownFrom,
      StartedAt, FirstAsked, NoneJustAbovePieces, HistoryAnswered, StartsCoarse, AllOnOneSide, AllRight;
    var s := Make(m, f, supportInf, supportSup);
    answers := [];
    ghost var right := AllRight(queries, r);
    NothingAsked(m, f, s.tree, s.top, s.grown, supportInf, supportSup, r);
    for i := 0 to |queries|
      invariant fresh(s) && s.Valid() && s.m == m && s.supportInf == supportInf && s.supportSup == supportSup
      invariant s.AllHooks() == Asking(m, f) && NoFiner(s.tree, r) && |answers| == i
      invariant StartedAt(FirstAsked(queries[..i], supportInf, supportSup, r), s.tree, s.top, s.grown)
      invariant s.tree != map[] ==> (right <==> s.top.multiplier >= 0)
      invariant StartsCoarse(queries[..i], supportInf, supportSup, r) ==>
                  HistoryAnswered(m, f, queries[..i], supportInf, supportSup, r, answers)
    {
      assert queries[..i + 1][..i] == queries[..i];
      var (inf, sup) := queries[i];
      QuerySide(queries, r, i);
      ghost var tree, top, grown := s.tree, s.top, s.grown;
      var lie := LogSignatureByGrains(s, f, inf, sup, r);
      AskedOneMore(queries[..i + 1], supportInf, supportSup, r, tree, top, grown, s.tree, s.top, s.grown);
      if !s.Outside(inf, sup) {
        SideAfter(tree, top, grown, s.tree, s.top, s.grown, inf, sup, r, right);
        StartedCoarse(queries[..i + 1], supportInf, supportSup, s.tree, s.top, s.grown, inf, sup, r);
      }
      StartedBefore(queries[..i + 1], supportInf, supportSup, r);
      HistoryStep(m, f, queries[..i + 1], supportInf, supportSup, r, answers, lie);
      answers := answers + [lie];
    }
    assert queries[..|queries|] == queries;
  }

  lemma HistoryStep<T>(m: Monoid<T>, f: New<T>, queries: seq<(real, real)>, supportInf: real, supportSup: real, r: int,
                       answers: seq<T>, lie: T)
    requires queries != []
    ensures var n := |queries| - 1;
            && HistoryAnswered(m, f, queries[..n], supportInf, supportSup, r, answers)
            && (if queries[n].1 < supportInf || queries[n].0 >= supportSup then lie == m.one
                else IsGrainAnswer(m, f, queries[n].0, queries[n].1, r, lie)) ==>
              HistoryAnswered(m, f, queries, supportInf, supportSup, r, answers + [lie])
  {
    hide IsGrainAnswer;
  }

  lemma NothingAsked<T>(m: Monoid<T>, f: New<T>, tree: Tree<T>, top: DyadicInterval, grown: set<DyadicInterval>,
                        supportInf: real, supportSup: real, r: int)
    requires tree == map[]
    ensures HistoryAnswered(m, f, [], supportInf, supportSup, r, [])
    ensures StartedAt(FirstAsked([], supportInf, supportSup, r), tree, top, grown) && NoFiner(tree, r)
  {
  }

  lemma AskedOneMore<T>(queries: seq<(real, real)>, supportInf: real, supportSup: real, r: int,
                        tree: Tree<T>, top: DyadicInterval, grown: set<DyadicInterval>,
                        tree': Tree<T>, top': DyadicInterval, grown': set<DyadicInterval>)
    requires queries != []
    requires StartedAt(FirstAsked(queries[..|queries| - 1], supportInf, supportSup, r), tree, top, grown)
    requires var (inf, sup) := queries[|queries| - 1];
             && FloorAt(inf, r) <= FloorAt(sup, r)
             && if sup < supportInf || inf >= supportSup then tree' == tree && top' == top && grown' == grown
                else GrownFrom(tree, top, grown, tree', top', grown', Pieces(FloorAt(inf, r), FloorAt(sup, r), r))
    ensures StartedAt(FirstAsked(queries, supportInf, supportSup, r), tree', top', grown')
  {
    hide FloorAt, Pieces, GrownAbove;
    var (inf, sup) := queries[|queries| - 1];
    var b, e := FloorAt(inf, r), FloorAt(sup, r);
    PiecesAreMaximal(b, e, r);
    NoPiecesAt(b, r);
    match FirstAsked(queries[..|queries| - 1], supportInf, supportSup, r)
    case None =>
    case Some(d) =>
      if GrownAbove(grown, grown', top) && top'.ContainsDyadic(top) {
        GrownJoin({}, grown, grown', d, top);
        ContainsTransitive(top', top, d);
      }
  }

  lemma SideAfter<T>(tree: Tree<T>, top: DyadicInterval, grown: set<DyadicInterval>, tree': Tree<T>,
                     top': DyadicInterval, grown': set<DyadicInterval>, inf: real, sup: real, r: int, right: bool)
    requires FloorAt(inf, r) <= FloorAt(sup, r) && (if right then FloorAt(inf, r) >= 0 else FloorAt(sup, r) <= 0)
    requires GrownFrom(tree, top, grown, tree', top', grown', Pieces(FloorAt(inf, r), FloorAt(sup, r), r))
    requires tree != map[] ==> (right <==> top.multiplier >= 0)
    ensures tree' != map[] ==> (right <==> top'.multiplier >= 0)
  {
    hide FloorAt, Pieces, GrownAbove;
    var b, e := FloorAt(inf, r), FloorAt(sup, r);
    NoPiecesAt(b, r);
    if b < e {
      PiecesAreMaximal(b, e, r);
      var first := if tree == map[] then Pieces(b, e, r)[0] else top;
      DynamicStream.PieceSide(b, e, r, 0);
      ContainedOnSameSide(top', first);
    }
  }

  lemma StartedBefore(queries: seq<(real, real)>, supportInf: real, supportSup: real, r: int)
    requires queries != []
    ensures StartsCoarse(queries, supportInf, supportSup, r) ==>
              StartsCoarse(queries[..|queries| - 1], supportInf, supportSup, r)
  {
  }

  lemma StartedCoarse<T>(queries: seq<(real, real)>, supportInf: real, supportSup: real, tree: Tree<T>,
                         top: DyadicInterval, grown: set<DyadicInterval>, inf: real, sup: real, r: int)
    requires FloorAt(inf, r) <= FloorAt(sup, r) && queries != [] && queries[|queries| - 1] == (inf, sup)
    requires !(sup < supportInf || inf >= supportSup)
    requires StartedAt(FirstAsked(queries, supportInf, supportSup, r), tree, top, grown)
    ensures StartsCoarse(queries, supportInf, supportSup, r) ==>
              NoneJustAbovePieces(grown, inf, sup, r)
  {
    hide FloorAt, Pieces, GrownAbove, NoneJustAbove;
    var b, e := FloorAt(inf, r), FloorAt(sup, r);
    if StartsCoarse(queries, supportInf, supportSup, r) {
      match FirstAsked(queries, supportInf, supportSup, r)
      case None =>
        NoPiecesAt(b, r);
      case Some(d) =>
        forall i | 0 <= i < |Pieces(b, e, r)|
          ensures NoneJustAbove(grown, Pieces(b, e, r)[i], r)
        {
          NoneFromCoarser(grown, d, Pieces(b, e, r)[i], r);
        }
    }
  }

  /** The root has grown from the first interval asked for. */
  ghost predicate StartedAt<T>(first: Option<DyadicInterval>, tree: Tree<T>, top: DyadicInterval,
                               grown: set<DyadicInterval>) {
    match first
    case None => tree == map[]
    case Some(d) => tree != map[] && top.ContainsDyadic(d) && GrownAbove({}, grown, d)
  }

  // ----- when answers stay -----

  /** Any history of queries, at any resolutions, on one side of zero: with an additive function
      every answer is the function's value, so that repeated ones agree. */
  method RunQueries<T(==, !new)>(m: Monoid<T>, f: New<T>, queries: seq<(DyadicInterval, int)>) returns (answers: seq<T>)
    requires forall i, j :: 0 <= i < |queries| && 0 <= j < |queries| ==>
               SameSide(queries[i].0.multiplier, queries[j].0.multiplier)
    ensures |answers| == |queries|
    ensures Additive(m, f) ==> forall i :: 0 <= i < |queries| ==> answers[i] == f(queries[i].0)
  {
    hide Linked, Accurate, Balanced, Conserved, AllHeld, KeepsValues, SplitExact, GrowthExact, Additive;
    var s := Make(m, f, 0.0, 1.0);
    answers := [];
    for i := 0 to |queries|
      invariant fresh(s) && s.Valid() && s.held == Given(f) && |answers| == i
      invariant s.Exact() <==> Additive(m, f)
      invariant s.tree != map[] ==> i > 0 && SameSide(s.top.multiplier, queries[0].0.multiplier)
      invariant Additive(m, f) ==> s.Faithful() && forall j :: 0 <= j < i ==> answers[j] == f(queries[j].0)
    {
      var lie := s.LogSignatureDyadic(queries[i].0, queries[i].1);
      GivenValue(f, s.tree, queries[i].0);
      answers := answers + [lie];
    }
  }

  lemma GivenValue<T(!new)>(f: New<T>, tree: Tree<T>, d: DyadicInterval)
    requires d in tree
    ensures AllHeld(Given(f), tree) ==> tree[d].lie == f(d)
  {
  }

  /** d, then its left half, then d again: the answers agree exactly if the function is additive at d. */
  method AskAround<T(==, !new)>(m: Monoid<T>, f: New<T>, d: DyadicInterval) returns (first: T, again: T)
    ensures first == f(d) && again == m.mul(f(d.LeftHalf()), f(d.RightHalf()))
    ensures first == again <==> AdditiveAt(m, f, d)
  {
    var s := Make(m, f, 0.0, 1.0);
    first := s.LogSignatureDyadic(d, d.power);
    ChildFacts(d);
    assert s.tree == s.SingleTree(d);
    assert SplitsAbove(s.tree, d.LeftHalf());
    var half := s.LogSignatureDyadic(d.LeftHalf(), d.power);
    AccuracyAtLeast(s.tree, d);
    again := s.LogSignatureDyadic(d, d.power);
  }

  /** The function that is 1 on every interval, with sums as products: [0, 1) is 1 at first, and 2
      after a query on [0, 1/2). */
  method AnswerChanges() returns (first: int, again: int)
    ensures first == 1 && again == 2
  {
    first, again := AskAround(Sums(), (d: DyadicInterval) => 1, DyadicInterval(0, 0));
  }

  // ----- functions of a path's values -----

  /** The value of an interval is the difference of the path's values at its ends. */
  function Increments<T>(sub: (T, T) -> T, path: real -> T): New<T> {
    (d: DyadicInterval) => sub(path(d.ExcludedEnd().Real()), path(d.IncludedEnd().Real()))
  }

  /** Differences add up: from a to b and from b to c is from a to c. */
  ghost predicate AddsUpAt<T>(add: (T, T) -> T, sub: (T, T) -> T, a: T, b: T, c: T) {
    add(sub(b, a), sub(c, b)) == sub(c, a)
  }

  ghost predicate AddsUp<T(!new)>(add: (T, T) -> T, sub: (T, T) -> T) {
    forall a: T, b: T, c: T :: AddsUpAt(add, sub, a, b, c)
  }

  ghost predicate ProductIsSumAt<T>(m: Monoid<T>, add: (T, T) -> T, f: New<T>, d: DyadicInterval) {
    m.mul(f(d.LeftHalf()), f(d.RightHalf())) == add(f(d.LeftHalf()), f(d.RightHalf()))
  }

  /** Differences of a path's values are additive exactly if the increments of adjacent halves have
      their sum as their product, as commuting ones do. */
  lemma IncrementsAdditiveExactly<T(!new)>(m: Monoid<T>, add: (T, T) -> T, sub: (T, T) -> T, path: real -> T)
    requires AddsUp(add, sub)
    ensures Additive(m, Increments(sub, path)) <==>
              forall d: DyadicInterval :: ProductIsSumAt(m, add, Increments(sub, path), d)
  {
    var f := Increments(sub, path);
    forall d: DyadicInterval
      ensures AdditiveAt(m, f, d) <==> ProductIsSumAt(m, add, f, d)
    {
      HalvesMeet(d);
      var a, b := path(d.IncludedEnd().Real()), path(d.LeftHalf().ExcludedEnd().Real());
      var c := path(d.ExcludedEnd().Real());
      assert AddsUpAt(add, sub, a, b, c);
    }
  }
}
