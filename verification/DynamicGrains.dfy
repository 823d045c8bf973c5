/** What a lazily grown stream says in terms of its finest intervals, whether its function is
    additive or not. */
module DynamicGrains {
  import opened Powers
  import opened DyadicIntervals
  import opened Dissection
  import opened Monoids
  import opened DynamicTree
  import opened DynamicValues
  import opened DynamicHooks
  import opened DynamicBalance
  import opened DynamicFrame
  import opened DynamicRuns

  // ----- leaves -----

  /** A leaf has the value that the function gives for it. */
  ghost predicate LeavesAsk<T>(f: New<T>, tree: Tree<T>) {
    forall k: DyadicInterval :: IsLeaf(tree, k) ==> tree[k].lie == f(k)
  }

  lemma StepAsks<T>(m: Monoid<T>, f: New<T>, s: State<T>, s': State<T>)
    requires LeavesAsk(f, s.tree) && Step(Asking(m, f), s, s')
    ensures LeavesAsk(f, s'.tree)
  {
    var h := Asking(m, f);
    if leaf :| SplitOf(h, s, s', leaf) {
      SplitAsks(m, f, s, s', leaf);
    } else if p :| RaiseOf(h, s, s', p) {
      RaiseAsks(m, f, s, s', p);
    } else {
      GrowAsks(m, f, s, s');
    }
  }

  lemma SplitAsks<T>(m: Monoid<T>, f: New<T>, s: State<T>, s': State<T>, leaf: DyadicInterval)
    requires LeavesAsk(f, s.tree) && SplitOf(Asking(m, f), s, s', leaf)
    ensures LeavesAsk(f, s'.tree)
  {
    forall k: DyadicInterval | IsLeaf(s'.tree, k)
      ensures s'.tree[k].lie == f(k)
    {
      if k != leaf.LeftHalf() && k != leaf.RightHalf() {
        assert IsLeaf(s.tree, k);
      }
    }
  }

  lemma RaiseAsks<T>(m: Monoid<T>, f: New<T>, s: State<T>, s': State<T>, p: DyadicInterval)
    requires LeavesAsk(f, s.tree) && RaiseOf(Asking(m, f), s, s', p)
    ensures LeavesAsk(f, s'.tree)
  {
    forall k: DyadicInterval | IsLeaf(s'.tree, k)
      ensures s'.tree[k].lie == f(k)
    {
      assert IsLeaf(s.tree, k);
    }
  }

  lemma GrowAsks<T>(m: Monoid<T>, f: New<T>, s: State<T>, s': State<T>)
    requires LeavesAsk(f, s.tree) && GrowOf(Asking(m, f), s, s')
    ensures LeavesAsk(f, s'.tree)
  {
    FamilyFacts(s.top);
    forall k: DyadicInterval | IsLeaf(s'.tree, k)
      ensures s'.tree[k].lie == f(k)
    {
      if k in s.tree {
        assert IsLeaf(s.tree, k);
      }
    }
  }

  /** Over a whole run of a function stream the leaves have the function's values. */
  lemma {:induction false} RunAsks<T>(m: Monoid<T>, f: New<T>, run: seq<State<T>>, i: nat)
    requires IsRun(Asking(m, f), run) && i < |run|
    ensures LeavesAsk(f, run[i].tree)
  {
    hide Step, LeavesAsk;
    if i == 0 {
      FirstAsks(m, f, run[0]);
    } else {
      RunAsks(m, f, run, i - 1);
      assert Step(Asking(m, f), run[i - 1], run[i - 1 + 1]);
      StepAsks(m, f, run[i - 1], run[i]);
    }
  }

  lemma FirstAsks<T>(m: Monoid<T>, f: New<T>, s: State<T>)
    requires First(Asking(m, f), s)
    ensures LeavesAsk(f, s.tree)
  {
  }

  // ----- grains -----

  /** The function on the intervals of power n from place a up to place b. */
  function GrainValues<T>(f: New<T>, a: int, b: int, n: int): seq<T>
    requires a <= b
  {
    seq(b - a, i requires 0 <= i < b - a => f(DyadicInterval(a + i, n)))
  }

  lemma GrainsJoin<T>(f: New<T>, a: int, b: int, c: int, n: int)
    requires a <= b <= c
    ensures GrainValues(f, a, c, n) == GrainValues(f, a, b, n) + GrainValues(f, b, c, n)
  {
  }

  lemma OneGrain<T>(f: New<T>, k: DyadicInterval)
    ensures k.Lo(k.power) == k.multiplier && k.Hi(k.power) == k.multiplier + 1
    ensures GrainValues(f, k.Lo(k.power), k.Hi(k.power), k.power) == [f(k)]
  {
    ShiftZero(k.multiplier);
    ShiftZero(k.multiplier + 1);
    assert DyadicInterval(k.multiplier + 0, k.power) == k;
  }

  /** With all leaves at power n a node is the product of the function over its grains. */
  lemma {:induction false} NodeIsGrains<T(!new)>(m: Monoid<T>, f: New<T>, tree: Tree<T>, root: DyadicInterval,
                                                 grown: set<DyadicInterval>, k: DyadicInterval, n: int)
    requires Lawful(m) && Linked(tree, root) && Accurate(tree) && Balanced(m, tree, grown) && k in tree
    requires LeavesAsk(f, tree) && LeavesAt(tree, k, n) && NoneJustAbove(grown, k, n)
    ensures k.power <= n && k.Lo(n) <= k.Hi(n)
    ensures tree[k].lie == Product(m, GrainValues(f, k.Lo(n), k.Hi(n), n))
    decreases Finest(tree) - k.power
  {
    hide Finest, Lawful, Linked, Accurate, Balanced, Product, LeavesAt, NoneJustAbove, LeavesAsk, GrainValues;
    if k.LeftHalf() in tree && k.RightHalf() in tree {
      UniformSplits(m, tree, root, grown, k, n);
      NodeIsGrains(m, f, tree, root, grown, k.LeftHalf(), n);
      NodeIsGrains(m, f, tree, root, grown, k.RightHalf(), n);
      HalfWindows(k, n);
      GrainsJoin(f, k.Lo(n), k.LeftHalf().Hi(n), k.Hi(n), n);
      ProductConcat(m, GrainValues(f, k.Lo(n), k.LeftHalf().Hi(n), n),
                    GrainValues(f, k.LeftHalf().Hi(n), k.Hi(n), n));
    } else {
      LeafIsGrain(f, tree, root, k, n);
      OneGrain(f, k);
      ProductOne(m, f(k));
    }
  }

  lemma LeafIsGrain<T>(f: New<T>, tree: Tree<T>, root: DyadicInterval, k: DyadicInterval, n: int)
    requires Linked(tree, root) && k in tree && !(k.LeftHalf() in tree && k.RightHalf() in tree)
    requires LeavesAsk(f, tree) && LeavesAt(tree, k, n)
    ensures k.power == n && tree[k].lie == f(k)
  {
    HalvesTogether(tree, root, k);
    ContainsItself(k);
    assert IsLeaf(tree, k);
  }

  /** Where the tree is nowhere finer than n, a node that is accurate to n has all its leaves there. */
  lemma AccurateIsUniform<T>(tree: Tree<T>, root: DyadicInterval, k: DyadicInterval, n: int)
    requires Linked(tree, root) && Accurate(tree) && NoFiner(tree, n) && k in tree && tree[k].accuracy >= n
    ensures LeavesAt(tree, k, n)
  {
    var least := AccuracyIsLeastLeafPower(tree, root, k);
  }

  /** The answer to a query at the finest power of the tree is the product of the function over all
      grains of the query. */
  lemma {:induction false} TilesAreGrains<T(!new)>(m: Monoid<T>, f: New<T>, tree: Tree<T>, root: DyadicInterval,
                                                   grown: set<DyadicInterval>, pieces: seq<DyadicInterval>, lo: int,
                                                   hi: int, n: int)
    requires Lawful(m) && Linked(tree, root) && Accurate(tree) && Balanced(m, tree, grown)
    requires LeavesAsk(f, tree) && NoFiner(tree, n) && AllAccurate(tree, pieces, n) && Tiles(pieces, lo, hi, n)
    requires forall i :: 0 <= i < |pieces| ==> NoneJustAbove(grown, pieces[i], n)
    ensures AllIn(tree, pieces) && lo <= hi
    ensures Product(m, NodeValues(tree, pieces)) == Product(m, GrainValues(f, lo, hi, n))
    decreases |pieces|
  {
    hide Lawful, Linked, Accurate, Balanced, LeavesAsk, NoFiner, NoneJustAbove, GrainValues;
    TilesOrdered(pieces, lo, hi, n);
    if pieces == [] {
      assert NodeValues(tree, pieces) == [];
      NoGrains(f, lo, n);
    } else {
      var d, rest := pieces[0], pieces[1..];
      assert AllAccurate(tree, rest, n);
      TilesAreGrains(m, f, tree, root, grown, rest, d.Hi(n), hi, n);
      AccurateIsUniform(tree, root, d, n);
      NodeIsGrains(m, f, tree, root, grown, d, n);
      GrainsJoin(f, lo, d.Hi(n), hi, n);
      ProductConcat(m, GrainValues(f, lo, d.Hi(n), n), GrainValues(f, d.Hi(n), hi, n));
      assert NodeValues(tree, pieces)[1..] == NodeValues(tree, rest);
    }
  }

  lemma NoGrains<T>(f: New<T>, at: int, n: int)
    ensures GrainValues(f, at, at, n) == []
  {
  }

  /** A root that was made by growing from the first piece lies in no piece. */
  lemma NoneInPieces(grown: set<DyadicInterval>, b: int, e: int, r: int, i: nat)
    requires b <= e && i < |Pieces(b, e, r)| && GrownAfter(grown, Pieces(b, e, r))
    ensures NoneJustAbove(grown, Pieces(b, e, r)[i], r)
  {
    hide Pieces, Related;
    var first, d := Pieces(b, e, r)[0], Pieces(b, e, r)[i];
    RelatedEither(first, d);
    if i > 0 {
      PiecesUnrelated(b, e, r, 0, i);
    }
    forall g: DyadicInterval | g in grown && d.ContainsDyadic(g)
      ensures false
    {
      ContainsTransitive(d, g, first);
      if i == 0 {
        SameEnds(g, first);
      }
    }
  }

  /** Roots that were made by growing from a node of power below n are more than one level above n. */
  lemma NoneFromCoarser(grown: set<DyadicInterval>, first: DyadicInterval, k: DyadicInterval, n: int)
    requires GrownAbove({}, grown, first) && first.power < n
    ensures NoneJustAbove(grown, k, n)
  {
    forall g: DyadicInterval | g in grown
      ensures g.power != n - 1
    {
      ContainsIsUp(g, first);
      assert Up(first.multiplier, 0) == first.multiplier;
    }
  }

  lemma RelatedEither(a: DyadicInterval, b: DyadicInterval)
    ensures b.ContainsDyadic(a) ==> Related(a, b)
  {
  }
}
