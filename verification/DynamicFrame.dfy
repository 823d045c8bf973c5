/** What a query leaves alone: nodes apart from the interval asked for, and how fine the tree is. */
module DynamicFrame {
  import opened Powers
  import opened Dyadics
  import opened DyadicIntervals
  import opened Dissection
  import opened DynamicTree
  import opened DynamicGrowth
  import opened DynamicValues

  /** One of the two lies in the other. */
  predicate Related(a: DyadicInterval, b: DyadicInterval) {
    a.ContainsDyadic(b) || b.ContainsDyadic(a)
  }

  /** A node has the value and the accuracy it had. */
  ghost predicate SameAt<T>(before: Tree<T>, after: Tree<T>, k: DyadicInterval) {
    k in before ==> k in after && after[k].lie == before[k].lie && after[k].accuracy == before[k].accuracy
  }

  ghost predicate KeepsApart<T>(before: Tree<T>, after: Tree<T>, d: DyadicInterval) {
    forall k: DyadicInterval :: !Related(k, d) ==> SameAt(before, after, k)
  }

  ghost predicate NoFiner<T>(tree: Tree<T>, n: int) {
    forall k: DyadicInterval :: k in tree ==> k.power <= n
  }

  /** The tree does not get finer than n, if it was not so before. */
  ghost predicate NotRefinedBeyond<T>(before: Tree<T>, after: Tree<T>, n: int) {
    forall i :: i >= n && NoFiner(before, i) ==> NoFiner(after, i)
  }

  /** Nodes stay, apart from d as they are, and new ones are not finer than n or what there was. */
  ghost predicate OnlyAround<T>(before: Tree<T>, after: Tree<T>, d: DyadicInterval, n: int) {
    before.Keys <= after.Keys && KeepsApart(before, after, d) && NotRefinedBeyond(before, after, n)
  }

  /** Only nodes that hold p have changed their value or their accuracy. */
  ghost predicate KeepsBelow<T>(before: Tree<T>, after: Tree<T>, p: DyadicInterval) {
    forall k: DyadicInterval :: !k.ContainsDyadic(p) ==> SameAt(before, after, k)
  }

  lemma AroundSelf<T>(tree: Tree<T>, d: DyadicInterval, n: int)
    ensures OnlyAround(tree, tree, d, n)
  {
  }

  lemma AroundKeys<T>(before: Tree<T>, after: Tree<T>, d: DyadicInterval, n: int)
    ensures OnlyAround(before, after, d, n) ==> before.Keys <= after.Keys
  {
  }

  lemma AroundJoin<T>(a: Tree<T>, b: Tree<T>, c: Tree<T>, d: DyadicInterval, n: int)
    ensures OnlyAround(a, b, d, n) && OnlyAround(b, c, d, n) ==> OnlyAround(a, c, d, n)
  {
    hide NoFiner, Related;
    if OnlyAround(a, b, d, n) && OnlyAround(b, c, d, n) {
      forall k: DyadicInterval | !Related(k, d)
        ensures SameAt(a, c, k)
      {
        assert SameAt(a, b, k) && SameAt(b, c, k);
      }
    }
  }

  /** Around a part is around the whole. */
  lemma AroundWider<T>(a: Tree<T>, b: Tree<T>, d: DyadicInterval, n: int, wider: DyadicInterval, n': int)
    requires wider.ContainsDyadic(d) && n <= n'
    ensures OnlyAround(a, b, d, n) ==> OnlyAround(a, b, wider, n')
  {
    hide NoFiner, SameAt, Related, DyadicInterval.ContainsDyadic;
    if OnlyAround(a, b, d, n) {
      forall k: DyadicInterval | !Related(k, wider)
        ensures SameAt(a, b, k)
      {
        if Related(k, d) {
          ApartFromPart(k, d, wider);
        }
      }
    }
  }

  lemma ApartFromPart(k: DyadicInterval, d: DyadicInterval, wider: DyadicInterval)
    requires wider.ContainsDyadic(d) && Related(k, d)
    ensures Related(k, wider)
  {
    if d.ContainsDyadic(k) {
      ContainsTransitive(wider, d, k);
    } else {
      BothHold(k, wider, d);
    }
  }

  /** Two intervals that hold the same one are related. */
  lemma BothHold(a: DyadicInterval, b: DyadicInterval, d: DyadicInterval)
    requires a.ContainsDyadic(d) && b.ContainsDyadic(d)
    ensures Related(a, b)
  {
    var t := d.power;
    ContainsIsUp(a, d);
    ContainsIsUp(b, d);
    NestedOrDisjoint(a, b, t);
    ContainsWindow(a, d, t);
    ContainsWindow(b, d, t);
    WindowLength(d, t);
  }

  lemma BelowSelf<T>(tree: Tree<T>, p: DyadicInterval)
    ensures KeepsBelow(tree, tree, p)
  {
  }

  lemma BelowRaise<T>(before: Tree<T>, tree: Tree<T>, p: DyadicInterval, above: DyadicInterval, lie: T, accuracy: int)
    requires KeepsBelow(before, tree, p) && above in tree && above.ContainsDyadic(p)
    ensures KeepsBelow(before, Raised(tree, above, lie, accuracy), p)
    ensures Parent(above).ContainsDyadic(p)
  {
    HoldsFromParent(above, p);
    forall k: DyadicInterval | !k.ContainsDyadic(p)
      ensures SameAt(before, Raised(tree, above, lie, accuracy), k)
    {
      assert SameAt(before, tree, k);
    }
  }

  lemma HoldsFromParent(d: DyadicInterval, p: DyadicInterval)
    requires d.ContainsDyadic(p)
    ensures Parent(d).ContainsDyadic(d) && Parent(d).ContainsDyadic(p)
  {
    FamilyFacts(d);
    ChildFacts(Parent(d));
    ContainsTransitive(Parent(d), d, p);
  }

  lemma BelowIsAround<T>(before: Tree<T>, after: Tree<T>, p: DyadicInterval, d: DyadicInterval, n: int)
    requires SameShape(before, after) && p.ContainsDyadic(d)
    ensures KeepsBelow(before, after, p) ==> OnlyAround(before, after, d, n)
  {
    if KeepsBelow(before, after, p) {
      forall k: DyadicInterval | !Related(k, d)
        ensures SameAt(before, after, k)
      {
        if k.ContainsDyadic(p) {
          ContainsTransitive(k, p, d);
        }
      }
      forall i | NoFiner(before, i)
        ensures NoFiner(after, i)
      {
        assert before.Keys == after.Keys;
      }
    }
  }

  lemma SplitAround<T>(tree: Tree<T>, root: DyadicInterval, leaf: DyadicInterval, l: T, r: T, d: DyadicInterval, n: int)
    requires Linked(tree, root) && IsLeaf(tree, leaf) && leaf.ContainsDyadic(d) && leaf.power < n
    ensures OnlyAround(tree, WithChildren(tree, leaf, l, r), d, n)
  {
    HalvesTogether(tree, root, leaf);
    var after := WithChildren(tree, leaf, l, r);
    hide Linked, Related;
    forall k: DyadicInterval
      ensures SameAt(tree, after, k)
    {
    }
    forall i | i >= n && NoFiner(tree, i)
      ensures NoFiner(after, i)
    {
    }
  }

  lemma GrowAround<T>(tree: Tree<T>, root: DyadicInterval, rootLie: T, neighbourLie: T, d: DyadicInterval, n: int)
    requires Linked(tree, root)
    ensures OnlyAround(tree, WithRoot(tree, root, rootLie, neighbourLie), d, n)
  {
    GrowthFacts(tree, root);
    var after := WithRoot(tree, root, rootLie, neighbourLie);
    hide Linked, Related;
    forall k: DyadicInterval
      ensures SameAt(tree, after, k)
    {
    }
    forall i | NoFiner(tree, i)
      ensures NoFiner(after, i)
    {
      assert root.power <= i;
    }
  }

  lemma FirstAround<T>(d: DyadicInterval, node: Node<T>, n: int)
    requires d.power <= n
    ensures OnlyAround(map[], map[d := node], d, n)
  {
  }

  /** Roots that were made since `top` was the root. */
  ghost predicate GrownAbove(before: set<DyadicInterval>, after: set<DyadicInterval>, top: DyadicInterval) {
    forall g: DyadicInterval :: g in after ==> g in before || (g.ContainsDyadic(top) && g != top)
  }

  lemma NoneGrownSince(grown: set<DyadicInterval>, top: DyadicInterval)
    ensures GrownAbove(grown, grown, top)
  {
  }

  lemma GrownOneMore(before: set<DyadicInterval>, after: set<DyadicInterval>, top: DyadicInterval,
                     root: DyadicInterval)
    requires GrownAbove(before, after, top) && root.ContainsDyadic(top)
    ensures GrownAbove(before, after + {Parent(root)}, top) && Parent(root).ContainsDyadic(top)
  {
    HoldsFromParent(root, top);
    ContainsIsUp(root, top);
  }

  lemma GrownJoin(before: set<DyadicInterval>, middle: set<DyadicInterval>, after: set<DyadicInterval>,
                  first: DyadicInterval, top: DyadicInterval)
    requires GrownAbove(before, middle, first) && GrownAbove(middle, after, top) && top.ContainsDyadic(first)
    ensures GrownAbove(before, after, first)
  {
    forall g: DyadicInterval | g in after && g !in middle
      ensures g.ContainsDyadic(first) && g != first
    {
      ContainsTransitive(g, top, first);
      if g == first {
        SameEnds(g, top);
      }
    }
  }

  /** How a query has grown the root: from the root there was, or from the first piece. */
  ghost predicate GrownFrom<T>(tree: Tree<T>, top: DyadicInterval, grown: set<DyadicInterval>, tree': Tree<T>,
                               top': DyadicInterval, grown': set<DyadicInterval>, pieces: seq<DyadicInterval>) {
    if pieces == [] then tree' == tree && top' == top && grown' == grown
    else
      var first := if tree == map[] then pieces[0] else top;
      tree' != map[] && top'.ContainsDyadic(first) && GrownAbove(if tree == map[] then {} else grown, grown', first)
  }

  lemma NotGrownYet<T>(tree: Tree<T>, top: DyadicInterval, grown: set<DyadicInterval>)
    ensures GrownFrom(tree, top, grown, tree, top, grown, [])
  {
  }

  lemma GrownStep<T>(tree: Tree<T>, top: DyadicInterval, grown: set<DyadicInterval>,
                     before: Tree<T>, beforeTop: DyadicInterval, beforeGrown: set<DyadicInterval>,
                     after: Tree<T>, afterTop: DyadicInterval, afterGrown: set<DyadicInterval>,
                     pieces: seq<DyadicInterval>, i: nat)
    requires i < |pieces| && GrownFrom(tree, top, grown, before, beforeTop, beforeGrown, pieces[..i])
    requires after != map[] && (if before == map[] then afterTop.ContainsDyadic(pieces[i])
                                else afterTop.ContainsDyadic(beforeTop))
    requires GrownAbove(if before == map[] then {} else beforeGrown, afterGrown,
                        if before == map[] then pieces[i] else beforeTop)
    ensures GrownFrom(tree, top, grown, after, afterTop, afterGrown, pieces[..i + 1])
  {
    hide GrownAbove;
    if i > 0 {
      var first := if tree == map[] then pieces[0] else top;
      GrownJoin(if tree == map[] then {} else grown, beforeGrown, afterGrown, first, beforeTop);
      ContainsTransitive(afterTop, beforeTop, first);
    }
  }

  lemma SameEnds(a: DyadicInterval, b: DyadicInterval)
    requires a.ContainsDyadic(b) && b.ContainsDyadic(a)
    ensures a == b
  {
    ContainsIsUp(a, b);
    ContainsIsUp(b, a);
    assert Up(a.multiplier, 0) == a.multiplier;
  }

  // ----- the pieces of a query -----

  lemma NotRefinedSelf<T>(tree: Tree<T>, n: int)
    ensures NotRefinedBeyond(tree, tree, n)
  {
  }

  lemma NotRefinedJoin<T>(a: Tree<T>, b: Tree<T>, c: Tree<T>, n: int)
    ensures NotRefinedBeyond(a, b, n) && NotRefinedBeyond(b, c, n) ==> NotRefinedBeyond(a, c, n)
  {
    hide NoFiner;
  }

  ghost predicate AllAccurate<T>(tree: Tree<T>, pieces: seq<DyadicInterval>, r: int) {
    forall i :: 0 <= i < |pieces| ==> pieces[i] in tree && tree[pieces[i]].accuracy >= r
  }

  /** The nodes of the first i pieces say what has been answered, accurately enough. */
  ghost predicate Answering<T>(tree: Tree<T>, pieces: seq<DyadicInterval>, i: nat, r: int, lies: seq<T>) {
    && i == |lies| <= |pieces|
    && forall j :: 0 <= j < i ==> pieces[j] in tree && tree[pieces[j]].accuracy >= r && tree[pieces[j]].lie == lies[j]
  }

  lemma NothingAnswered<T>(tree: Tree<T>, pieces: seq<DyadicInterval>, r: int)
    ensures Answering(tree, pieces, 0, r, [])
  {
  }

  lemma AllAnswered<T>(tree: Tree<T>, pieces: seq<DyadicInterval>, r: int, lies: seq<T>)
    requires Answering(tree, pieces, |pieces|, r, lies)
    ensures AllIn(tree, pieces) && lies == NodeValues(tree, pieces) && AllAccurate(tree, pieces, r)
  {
  }

  /** Two pieces of a query are apart. */
  lemma PiecesUnrelated(b: int, e: int, r: int, i: nat, j: nat)
    requires b <= e && i < j < |Pieces(b, e, r)|
    ensures !Related(Pieces(b, e, r)[i], Pieces(b, e, r)[j])
  {
    hide Pieces;
    var pieces := Pieces(b, e, r);
    PiecesAreMaximal(b, e, r);
    TilesLeftToRight(pieces, b, e, r, i, j);
    WindowLength(pieces[i], r);
    WindowLength(pieces[j], r);
    ContainsWindow(pieces[i], pieces[j], r);
    ContainsWindow(pieces[j], pieces[i], r);
  }

  /** Asking for one more piece changes nothing that has been answered. */
  lemma PieceAsked<T>(before: Tree<T>, after: Tree<T>, b: int, e: int, r: int, i: nat, lies: seq<T>, lie: T)
    requires b <= e && i < |Pieces(b, e, r)| && Answering(before, Pieces(b, e, r), i, r, lies)
    requires var d := Pieces(b, e, r)[i];
             && OnlyAround(before, after, d, Max(d.power, r))
             && d in after && after[d].lie == lie && after[d].accuracy >= r
    ensures Answering(after, Pieces(b, e, r), i + 1, r, lies + [lie])
    ensures NotRefinedBeyond(before, after, r)
  {
    hide OnlyAround, Pieces, Related;
    var pieces := Pieces(b, e, r);
    PieceNotFiner(b, e, r, i);
    AroundNotRefined(before, after, pieces[i], r);
    forall j | 0 <= j < i
      ensures pieces[j] in after && after[pieces[j]].accuracy >= r && after[pieces[j]].lie == lies[j]
    {
      PiecesUnrelated(b, e, r, j, i);
      ApartStays(before, after, pieces[i], r, pieces[j]);
    }
  }

  lemma PieceNotFiner(b: int, e: int, r: int, i: nat)
    requires b <= e && i < |Pieces(b, e, r)|
    ensures Pieces(b, e, r)[i].power <= r
  {
    PiecePowers(Pieces(b, e, r)[i], b, e, r);
  }

  lemma AroundNotRefined<T>(before: Tree<T>, after: Tree<T>, d: DyadicInterval, n: int)
    requires OnlyAround(before, after, d, n)
    ensures NotRefinedBeyond(before, after, n)
  {
  }

  /** The nodes asked for before keep what they said. */
  lemma ApartStays<T>(before: Tree<T>, after: Tree<T>, d: DyadicInterval, n: int, k: DyadicInterval)
    requires OnlyAround(before, after, d, n) && k in before && !Related(k, d)
    ensures k in after && after[k].lie == before[k].lie && after[k].accuracy == before[k].accuracy
  {
    assert SameAt(before, after, k);
  }

  /** On a stream that was empty every root that was made by growing holds more than the first piece. */
  ghost predicate GrownAfter(grown: set<DyadicInterval>, pieces: seq<DyadicInterval>) {
    pieces != [] ==> GrownAbove({}, grown, pieces[0])
  }
}
