/** What a lazily grown tree says: how accurate a node is, and what the stream was made of. */
module DynamicValues {
  import opened Wrappers
  import opened DyadicIntervals
  import opened Dissection
  import opened Monoids
  import opened Timeline
  import opened DynamicTree
  import opened DynamicGrowth

  /** No node of the tree is finer than this. */
  ghost function Finest<T>(tree: Tree<T>): (n: int)
    ensures forall k: DyadicInterval :: k in tree ==> k.power <= n
    decreases |tree|
  {
    if tree == map[] then 0
    else
      var k :| k in tree;
      var n := Finest(tree - {k});
      assert forall j: DyadicInterval :: j in tree && j != k ==> j in tree - {k};
      if n < k.power then k.power else n
  }

  // ----- accuracy -----

  /** The accuracy of a node is the least power among the leaves below it. */
  lemma {:induction false} AccuracyIsLeastLeafPower<T>(tree: Tree<T>, root: DyadicInterval, k: DyadicInterval)
    returns (least: DyadicInterval)
    requires Linked(tree, root) && Accurate(tree) && k in tree
    ensures IsLeaf(tree, least) && k.ContainsDyadic(least) && tree[k].accuracy == least.power
    ensures forall leaf: DyadicInterval :: IsLeaf(tree, leaf) && k.ContainsDyadic(leaf) ==>
            tree[k].accuracy <= leaf.power
    decreases Finest(tree) - k.power
  {
    hide Finest;
    assert AccurateAt(tree, k);
    ContainsItself(k);
    ChildFacts(k);
    if IsLeaf(tree, k) {
      least := k;
      forall leaf: DyadicInterval | IsLeaf(tree, leaf) && k.ContainsDyadic(leaf)
        ensures tree[k].accuracy <= leaf.power
      {
        LeafHasNothingBelow(tree, root, k, leaf);
      }
    } else {
      HalvesTogether(tree, root, k);
      var left := AccuracyIsLeastLeafPower(tree, root, k.LeftHalf());
      var right := AccuracyIsLeastLeafPower(tree, root, k.RightHalf());
      ContainsTransitive(k, k.LeftHalf(), left);
      ContainsTransitive(k, k.RightHalf(), right);
      least := if tree[k.RightHalf()].accuracy < tree[k.LeftHalf()].accuracy then right else left;
      forall leaf: DyadicInterval | IsLeaf(tree, leaf) && k.ContainsDyadic(leaf)
        ensures tree[k].accuracy <= leaf.power
      {
        HalfHolding(k, leaf);
      }
    }
  }

  // ----- the timeline behind the tree -----

  /** The leaves below a node from left to right, each with the time at which it starts. */
  ghost function Leaves<T>(tree: Tree<T>, k: DyadicInterval): seq<(real, T)>
    requires k in tree
    decreases Finest(tree) - k.power
  {
    if k.LeftHalf() in tree && k.RightHalf() in tree then Leaves(tree, k.LeftHalf()) + Leaves(tree, k.RightHalf())
    else [(k.IncludedEnd().Real(), tree[k].lie)]
  }

  ghost predicate TimesIn<T>(entries: seq<(real, T)>, k: DyadicInterval) {
    forall i :: 0 <= i < |entries| ==> k.IncludedEnd().Real() <= entries[i].0 < k.ExcludedEnd().Real()
  }

  lemma {:induction false} LeavesInOrder<T>(tree: Tree<T>, k: DyadicInterval)
    requires k in tree
    ensures TimesIn(Leaves(tree, k), k) && Sorted(Leaves(tree, k))
    decreases Finest(tree) - k.power
  {
    hide Finest;
    HalvesMeet(k);
    if k.LeftHalf() in tree && k.RightHalf() in tree {
      LeavesInOrder(tree, k.LeftHalf());
      LeavesInOrder(tree, k.RightHalf());
      SortedHalves(k, Leaves(tree, k.LeftHalf()), Leaves(tree, k.RightHalf()));
    }
  }

  lemma SortedHalves<T>(k: DyadicInterval, a: seq<(real, T)>, b: seq<(real, T)>)
    requires TimesIn(a, k.LeftHalf()) && TimesIn(b, k.RightHalf()) && Sorted(a) && Sorted(b)
    ensures TimesIn(a + b, k) && Sorted(a + b)
  {
    HalvesMeet(k);
  }

  /** A node's value is the product of the leaves below it. */
  lemma {:induction false} NodeIsProductOfLeaves<T(!new)>(m: Monoid<T>, tree: Tree<T>, k: DyadicInterval)
    requires Lawful(m) && Conserved(m, tree) && k in tree
    ensures Product(m, Values(Leaves(tree, k))) == tree[k].lie
    decreases Finest(tree) - k.power
  {
    hide Finest, Lawful, Product;
    assert ConservedAt(m, tree, k);
    if k.LeftHalf() in tree && k.RightHalf() in tree {
      NodeIsProductOfLeaves(m, tree, k.LeftHalf());
      NodeIsProductOfLeaves(m, tree, k.RightHalf());
      var a, b := Leaves(tree, k.LeftHalf()), Leaves(tree, k.RightHalf());
      assert Values(a + b) == Values(a) + Values(b);
      ProductConcat(m, Values(a), Values(b));
    } else {
      ProductOne(m, tree[k].lie);
      assert Values(Leaves(tree, k)) == [tree[k].lie];
    }
  }

  lemma BetweenHalf<T>(k: DyadicInterval, a: seq<(real, T)>, b: seq<(real, T)>, d: DyadicInterval)
    requires TimesIn(a, k.LeftHalf()) && TimesIn(b, k.RightHalf())
    ensures var lo, hi := d.IncludedEnd().Real(), d.ExcludedEnd().Real();
            && (k.LeftHalf().ContainsDyadic(d) ==> Between(a + b, lo, hi) == Between(a, lo, hi))
            && (k.RightHalf().ContainsDyadic(d) ==> Between(a + b, lo, hi) == Between(b, lo, hi))
  {
    hide Between;
    var lo, hi := d.IncludedEnd().Real(), d.ExcludedEnd().Real();
    HalvesMeet(k);
    BetweenConcat(a, b, lo, hi);
    ContainsIsInclusion(k.LeftHalf(), d);
    ContainsIsInclusion(k.RightHalf(), d);
    if k.LeftHalf().ContainsDyadic(d) {
      BetweenEmpty(b, lo, hi);
    }
    if k.RightHalf().ContainsDyadic(d) {
      BetweenEmpty(a, lo, hi);
    }
  }

  /** What lies in a node, of the timeline of any node above it, is what the node says. */
  lemma {:induction false} NodeIsTotal<T(!new)>(m: Monoid<T>, tree: Tree<T>, root: DyadicInterval, k: DyadicInterval,
                                                d: DyadicInterval)
    requires Lawful(m) && Linked(tree, root) && Conserved(m, tree) && k in tree && d in tree && k.ContainsDyadic(d)
    ensures TotalOver(m, Leaves(tree, k), d) == tree[d].lie
    decreases Finest(tree) - k.power
  {
    hide Finest, Lawful, Linked, Conserved, Between;
    if d == k {
      LeavesInOrder(tree, k);
      BetweenAll(Leaves(tree, k), k.IncludedEnd().Real(), k.ExcludedEnd().Real());
      NodeIsProductOfLeaves(m, tree, k);
    } else {
      DownOne(tree, root, k, d);
      LeavesInOrder(tree, k.LeftHalf());
      LeavesInOrder(tree, k.RightHalf());
      BetweenHalf(k, Leaves(tree, k.LeftHalf()), Leaves(tree, k.RightHalf()), d);
      NodeIsTotal(m, tree, root, if k.LeftHalf().ContainsDyadic(d) then k.LeftHalf() else k.RightHalf(), d);
    }
  }

  lemma DownOne<T>(tree: Tree<T>, root: DyadicInterval, k: DyadicInterval, d: DyadicInterval)
    requires Linked(tree, root) && k in tree && d in tree && k.ContainsDyadic(d) && d != k
    ensures k.LeftHalf() in tree && k.RightHalf() in tree
    ensures k.LeftHalf().ContainsDyadic(d) || k.RightHalf().ContainsDyadic(d)
  {
    HalfHolding(k, d);
    ChildFacts(k);
    ContainsTransitive(root, k, k.LeftHalf());
    ContainsTransitive(root, k, k.RightHalf());
    if k.LeftHalf().ContainsDyadic(d) {
      PathInTree(tree, root, k.LeftHalf(), d);
    } else {
      PathInTree(tree, root, k.RightHalf(), d);
    }
    HalvesTogether(tree, root, k);
  }

  // ----- queries over the tree -----

  ghost predicate AllIn<T>(tree: Tree<T>, pieces: seq<DyadicInterval>) {
    forall i :: 0 <= i < |pieces| ==> pieces[i] in tree
  }

  function NodeValues<T>(tree: Tree<T>, pieces: seq<DyadicInterval>): seq<T>
    requires AllIn(tree, pieces)
  {
    seq(|pieces|, i requires 0 <= i < |pieces| => tree[pieces[i]].lie)
  }

  /** The answer to a query whose pieces are all nodes. */
  ghost predicate Answered<T>(tree: Tree<T>, inf: real, sup: real, r: int) {
    FloorAt(inf, r) <= FloorAt(sup, r) && AllIn(tree, Pieces(FloorAt(inf, r), FloorAt(sup, r), r))
  }

  ghost function Answer<T>(m: Monoid<T>, tree: Tree<T>, inf: real, sup: real, r: int): T
    requires Answered(tree, inf, sup, r)
  {
    Product(m, NodeValues(tree, Pieces(FloorAt(inf, r), FloorAt(sup, r), r)))
  }

  /** It is the product of what the leaves say, between the rounded ends. */
  lemma AnswerIsTotal<T(!new)>(m: Monoid<T>, tree: Tree<T>, root: DyadicInterval, inf: real, sup: real, r: int)
    requires Lawful(m) && Linked(tree, root) && Conserved(m, tree) && Answered(tree, inf, sup, r)
    ensures root in tree && Answer(m, tree, inf, sup, r) == QueryTotal(m, Leaves(tree, root), inf, sup, r)
  {
    hide Lawful, Conserved, Total, Finest, Pieces, Product, Between, Leaves, TotalOver;
    var pieces := Pieces(FloorAt(inf, r), FloorAt(sup, r), r);
    forall i | 0 <= i < |pieces|
      ensures TotalOver(m, Leaves(tree, root), pieces[i]) == tree[pieces[i]].lie
    {
      NodeIsTotal(m, tree, root, root, pieces[i]);
    }
    assert NodeValues(tree, pieces) == Totals(m, Leaves(tree, root), pieces);
    LeavesInOrder(tree, root);
    QueryFromPieces(m, Leaves(tree, root), inf, sup, r);
  }

  /** Refining and growing change no answer that has been given. */
  lemma AnswersStay<T>(m: Monoid<T>, before: Tree<T>, after: Tree<T>, inf: real, sup: real, r: int)
    requires KeepsValues(before, after) && Answered(before, inf, sup, r)
    ensures Answered(after, inf, sup, r) && Answer(m, after, inf, sup, r) == Answer(m, before, inf, sup, r)
  {
    hide Pieces, FloorAt;
    var pieces := Pieces(FloorAt(inf, r), FloorAt(sup, r), r);
    assert NodeValues(before, pieces) == NodeValues(after, pieces);
  }

  /** Chen's identity: answers given at any time before, over adjacent intervals, multiply to the
      answer over the whole. */
  lemma AnswersMultiply<T(!new)>(m: Monoid<T>, first: Tree<T>, second: Tree<T>, third: Tree<T>, root: DyadicInterval,
                                 a: real, b: real, c: real, r: int)
    requires Lawful(m) && Linked(third, root) && Conserved(m, third) && a <= b <= c
    requires KeepsValues(first, third) && KeepsValues(second, third)
    requires Answered(first, a, b, r) && Answered(second, b, c, r) && Answered(third, a, c, r)
    ensures Answer(m, third, a, c, r) == m.mul(Answer(m, first, a, b, r), Answer(m, second, b, c, r))
  {
    hide Lawful, Linked, Conserved, KeepsValues, Answered, Answer, QueryTotal, Leaves;
    AnswersStay(m, first, third, a, b, r);
    AnswersStay(m, second, third, b, c, r);
    AnswerIsTotal(m, third, root, a, b, r);
    AnswerIsTotal(m, third, root, b, c, r);
    AnswerIsTotal(m, third, root, a, c, r);
    LeavesInOrder(third, root);
    Chen(m, Leaves(third, root), a, b, c, r);
  }
}
