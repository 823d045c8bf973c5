/** A stream that is constructed while it is queried: values are made for a root interval, for its
    neighbours as the root grows, and for the halves of a leaf as it is split. */
module DynamicStream {
  import opened Wrappers
  import opened Powers
  import opened Dyadics
  import opened DyadicIntervals
  import opened Dissection
  import opened Monoids
  import opened DynamicTree
  import opened DynamicGrowth
  import opened DynamicValues
  import opened DynamicHooks
  import opened DynamicBalance
  import opened DynamicFrame
  import opened DynamicRuns

  class DynamicStream<T(==, !new)> {
    const m: Monoid<T>
    const newRoot: New<T>
    const newNeighbour: New<T>
    const split: Split<T>
    const supportInf: real
    const supportSup: real
    var tree: Tree<T>
    ghost var top: DyadicInterval

    // All states that the tree has been through.
    ghost var run: seq<State<T>>

    // The roots that were made by growing.
    ghost var grown: set<DyadicInterval>

    // Which values the intervals may have, in the eyes of the stream's user.
    ghost const held: Held<T>

    ghost predicate Rooted()
      reads this
    {
      Linked(tree, top) && Accurate(tree) && Balanced(m, tree, grown) && Tracked()
    }

    /** The tree is the end of a run. */
    ghost predicate Tracked()
      reads this
    {
      run != [] && IsRun(AllHooks(), run) && run[|run| - 1] == State(tree, top)
    }

    ghost function AllHooks(): Hooks<T> {
      Hooks(m, newRoot, newNeighbour, split)
    }

    /** The values fit together, and the root's is what the stream says it is. */
    ghost predicate Faithful()
      reads this
    {
      Conserving(m, held, tree) && (tree != map[] ==> top in tree && tree[top].lie == newRoot(top))
    }

    /** The hooks split and grow exactly the values that can be held. */
    ghost predicate Exact() {
      Splits() && Grows()
    }

    ghost predicate Splits() {
      SplitExact(m, split, held)
    }

    ghost predicate Grows() {
      GrowthExact(m, newRoot, newNeighbour, held)
    }

    ghost predicate Valid()
      reads this
    {
      if tree == map[] then run == [] else Rooted()
    }

    constructor (m: Monoid<T>, newRoot: New<T>, newNeighbour: New<T>, split: Split<T>, supportInf: real,
                 supportSup: real,
                 ghost held: Held<T>)
      ensures Valid() && Faithful() && tree == map[]
      ensures this.m == m && this.newRoot == newRoot && this.newNeighbour == newNeighbour && this.split == split
      ensures this.supportInf == supportInf && this.supportSup == supportSup && this.held == held
    {
      this.held := held;
      this.m, this.newRoot, this.newNeighbour, this.split := m, newRoot, newNeighbour, split;
      this.supportInf, this.supportSup := supportInf, supportSup;
      tree, run := map[], [];
    }

    method RaiseParent(parent: DyadicInterval, lie: T, accuracyAvailable: int)
      requires Tracked() && parent in tree && parent.LeftHalf() in tree && parent.RightHalf() in tree
      requires lie == HalvesProduct(m, tree, parent) && accuracyAvailable == ChildAccuracy(tree, parent)
      requires accuracyAvailable > tree[parent].accuracy
      modifies this`tree, this`run
      ensures Tracked() && tree == Raised(old(tree), parent, lie, accuracyAvailable)
      ensures run == old(run) + [State(tree, top)]
    {
      hide IsRun;
      ExtendByRaise(AllHooks(), run, State(tree, top), parent, lie, accuracyAvailable);
      tree := tree[parent := tree[parent].(lie := lie, accuracy := accuracyAvailable)];
      run := run + [State(tree, top)];
    }

    /** Recomputes the parents on the way up while that makes them more accurate. */
    method UpdateParents(start: DyadicInterval)
      requires Linked(tree, top) && start in tree && AccurateBut(tree, Parent(start))
      requires BalancedBut(m, tree, grown, Parent(start)) && Leads(m, tree, grown, start) && Tracked()
      modifies this`tree, this`run
      ensures Rooted() && SameShape(old(tree), tree) && old(run) <= run && KeepsBelow(old(tree), tree, Parent(start))
      ensures old(Conserving(m, held, tree)) ==> Conserving(m, held, tree) && KeepsValues(old(tree), tree)
      ensures old(start != top && Rises(tree, start)) ==>
                Parent(start) in tree && tree[Parent(start)].lie == old(HalvesProduct(m, tree, Parent(start)))
    {
      hide IsRun, Linked, Accurate, AccurateBut, Balanced, BalancedBut, Leads, Conserved, KeepsValues, SameShape,
        AllHeld, Rises, HalvesProduct, KeepsBelow, DyadicInterval.ContainsDyadic;
      RootIsFirst(tree, top);
      var root :| IsFirst(tree, root);
      FirstIsUnique(tree, root, top);
      SameShapeSelf(tree);
      KeepsSelf(tree);
      BelowSelf(tree, Parent(start));
      ContainsItself(Parent(start));
      var current := start;
      while current != root
        invariant current in tree && Linked(tree, top) && AccurateBut(tree, Parent(current))
        invariant BalancedBut(m, tree, grown, Parent(current)) && Leads(m, tree, grown, current)
        invariant Tracked() && old(run) <= run
        invariant SameShape(old(tree), tree)
        invariant KeepsBelow(old(tree), tree, Parent(start)) && Parent(current).ContainsDyadic(Parent(start))
        invariant old(Conserving(m, held, tree)) ==> Conserving(m, held, tree) && KeepsValues(old(tree), tree)
        invariant if current == start then tree == old(tree)
                  else current.power < start.power && old(Rises(tree, start)) && Parent(start) in tree
                       && tree[Parent(start)].lie == old(HalvesProduct(m, tree, Parent(start)))
        decreases current.power - root.power
      {
        FamilyIn(tree, root, current);
        RisesMeans(m, tree, root, current);
        var parent := tree[current].parent.value;
        var sibling := tree[current].sibling.value;
        var accuracyAvailable := Min(tree[current].accuracy, tree[sibling].accuracy);
        if accuracyAvailable <= tree[parent].accuracy {
          NothingBehind(tree, parent);
          StopBalanced(m, tree, root, grown, current);
          return;
        }
        var lie := if current.Aligned() then m.mul(tree[current].lie, tree[sibling].lie)
                   else m.mul(tree[sibling].lie, tree[current].lie);
        RaiseAll(m, held, old(tree), tree, root, grown, current, lie);
        BelowRaise(old(tree), tree, Parent(start), parent, lie, accuracyAvailable);
        RaiseParent(parent, lie, accuracyAvailable);
        current := parent;
      }
      NoParentOfRoot(tree, root);
      NothingBehind(tree, Parent(root));
      BalancedOutside(m, tree, grown, Parent(root));
    }

    /** Puts in the two halves of a leaf, with the values that the hook gives them. */
    method SplitLeaf(leaf: DyadicInterval, left: DyadicInterval, right: DyadicInterval) returns (newVals: (T, T))
      requires Tracked() && IsLeaf(tree, leaf) && left == leaf.LeftHalf() && right == leaf.RightHalf()
      modifies this`tree, this`run
      ensures leaf in old(tree) && newVals == split(left, right, old(tree)[leaf].lie)
      ensures Tracked() && tree == WithChildren(old(tree), leaf, newVals.0, newVals.1)
      ensures run == old(run) + [State(tree, top)]
    {
      hide IsRun;
      newVals := split(left, right, tree[leaf].lie);
      SplitIsStep(AllHooks(), State(tree, top), leaf);
      tree := tree[left := Node(newVals.0, left.power, Some(leaf), Some(right))];
      tree := tree[right := Node(newVals.1, right.power, Some(leaf), Some(left))];
      ExtendRun(AllHooks(), run, State(tree, top));
      run := run + [State(tree, top)];
    }

    /** Splits a leaf and goes on to the half that holds the interval. */
    method InsertChildrenAndRefine(leaf: DyadicInterval, interval: DyadicInterval) returns (child: DyadicInterval)
      requires Rooted() && IsLeaf(tree, leaf) && leaf.ContainsDyadic(interval) && leaf != interval
      modifies this`tree, this`run
      ensures Rooted() && OnlyAround(old(tree), tree, interval, interval.power) && old(run) <= run
      ensures IsLeaf(tree, child) && child.ContainsDyadic(interval) && child.power == leaf.power + 1
      ensures Splits() && old(Conserving(m, held, tree)) ==> Conserving(m, held, tree) && KeepsValues(old(tree), tree)
      ensures leaf in tree && old(leaf in tree)
      ensures tree[leaf].lie == SplitProduct(m, split, leaf, old(tree[leaf].lie))
    {
      hide IsRun, Linked, Accurate, AccurateBut, Balanced, BalancedBut, Leads, Conserved, KeepsValues, SameShape,
        SplitExact, AllHeld, OnlyAround, KeepsBelow, DyadicInterval.ContainsDyadic;
      HalvesAre(leaf);
      HalfHolding(leaf, interval);
      var left := leaf.ShrinkToContainedEnd();
      var right := leaf.ShrinkToOmittedEnd();
      ghost var before := tree;
      var newVals := SplitLeaf(leaf, left, right);
      SplitStep(m, before, top, leaf, newVals.0, newVals.1);
      SplitAround(before, top, leaf, newVals.0, newVals.1, interval, interval.power);
      if Splits() && AllHeld(held, before) {
        SplitInstance(m, split, held, before, leaf);
      }
      ghost var between := tree;
      SplitRises(m, before, top, leaf, newVals.0, newVals.1);
      SplitBalanced(m, before, top, grown, leaf, newVals.0, newVals.1);
      UpdateParents(left);
      KeepsJoin(before, between, tree);
      ChildFacts(leaf);
      BelowIsAround(between, tree, leaf, interval, interval.power);
      AroundJoin(before, between, tree, interval, interval.power);
      StillLeaves(between, tree, left, right);
      AroundKeys(before, tree, interval, interval.power);
      if left.ContainsDyadic(interval) {
        return left;
      }
      return right;
    }

    /** Makes the next larger interval the root, with a neighbour for the old one, until the root
        holds the interval. */
    method ExpandRootUntilContains(start: DyadicInterval, di: DyadicInterval) returns (root: DyadicInterval)
      requires Rooted() && start == top && SameSide(start.multiplier, di.multiplier)
      modifies this
      ensures Rooted() && root == top && root.ContainsDyadic(di) && old(run) <= run
      ensures OnlyAround(old(tree), tree, di, di.power) && GrownAbove(old(grown), grown, old(top))
      ensures start.ContainsDyadic(di) ==> tree == old(tree) && top == start
      ensures Grows() && old(Faithful()) ==> Faithful() && KeepsValues(old(tree), tree)
    {
      hide IsRun, Linked, Accurate, Balanced, Conserved, KeepsValues, GrowthExact, AllHeld, OnlyAround, GrownAbove;
      root := start;
      KeepsSelf(tree);
      AroundSelf(tree, di, di.power);
      ContainsItself(start);
      NoneGrownSince(grown, start);
      while !root.ContainsDyadic(di)
        invariant Rooted() && root == top && OnlyAround(old(tree), tree, di, di.power)
        invariant old(run) <= run && Ancestor(start, root)
        invariant GrownAbove(old(grown), grown, start) && root.ContainsDyadic(start)
        invariant start.ContainsDyadic(di) ==> root == start && tree == old(tree)
        invariant Grows() && old(Faithful()) ==> Faithful() && KeepsValues(old(tree), tree)
        decreases StepsEnough(start, di) - (start.power - root.power)
      {
        NotYetThere(start, root, di);
        ghost var before := tree;
        GrownOneMore(old(grown), grown, start, root);
        root := GrowRoot(root, di);
        KeepsJoin(old(tree), before, tree);
        AroundJoin(old(tree), before, tree, di, di.power);
      }
    }

    method GrowRoot(oldRoot: DyadicInterval, ghost di: DyadicInterval) returns (root: DyadicInterval)
      requires Rooted() && oldRoot == top
      modifies this
      ensures Rooted() && root == top && root == Parent(oldRoot) && old(run) <= run
      ensures grown == old(grown) + {root} && OnlyAround(old(tree), tree, di, di.power)
      ensures Grows() && old(Faithful()) ==> Faithful() && KeepsValues(old(tree), tree)
    {
      hide IsRun, Linked, Accurate, Balanced, Conserved, KeepsValues, GrowthExact, AllHeld, Step, WithRoot, OnlyAround;
      FamilyFacts(oldRoot);
      GrowAround(tree, oldRoot, newRoot(Parent(oldRoot)), newNeighbour(Sibling(oldRoot)), di, di.power);
      root := oldRoot.Expanded();
      HalvesAre(root);
      var neighbour := if oldRoot.Aligned() then root.ShrinkToOmittedEnd() else root.ShrinkToContainedEnd();
      GrowAll(AllHooks(), held, tree, oldRoot, grown);
      ExtendByGrowth(AllHooks(), run, State(tree, oldRoot));
      LinkRoot(oldRoot, root, neighbour);
      top, grown := root, grown + {root};
      run := run + [State(tree, top)];
    }

    /** Puts in the new root and the neighbour, and then sets the links. */
    method LinkRoot(oldRoot: DyadicInterval, root: DyadicInterval, neighbour: DyadicInterval)
      requires oldRoot in tree && root == Parent(oldRoot) && neighbour == Sibling(oldRoot)
      requires root !in tree && neighbour !in tree && root != neighbour
      modifies this`tree
      ensures tree == WithRoot(old(tree), oldRoot, newRoot(root), newNeighbour(neighbour))
    {
      var neighbourLie := newNeighbour(neighbour);
      var rootLie := newRoot(root);
      WithRootInSteps(tree, oldRoot, rootLie, neighbourLie);
      tree := tree[neighbour := Node(neighbourLie, neighbour.power, None, None)];
      tree := tree[root := Node(rootLie, oldRoot.power, None, None)];
      tree := tree[oldRoot := tree[oldRoot].(parent := Some(root), sibling := Some(neighbour))];
      tree := tree[neighbour := tree[neighbour].(parent := Some(root), sibling := Some(oldRoot))];
    }

    /** Splits leaves until an interval below a node is in the tree. */
    method InsertDownTo(inc: DyadicInterval, refinedInc: DyadicInterval)
      requires Rooted() && inc in tree && inc.ContainsDyadic(refinedInc)
      modifies this`tree, this`run
      ensures Rooted() && old(run) <= run && refinedInc in tree
      ensures OnlyAround(old(tree), tree, refinedInc, refinedInc.power)
      ensures Splits() && old(Conserving(m, held, tree)) ==> Conserving(m, held, tree) && KeepsValues(old(tree), tree)
    {
      hide IsRun, Linked, Accurate, AccurateBut, Balanced, BalancedBut, Leads, Conserved, KeepsValues, SplitExact,
        AllHeld, OnlyAround, KeepsBelow;
      KeepsSelf(tree);
      AroundSelf(tree, refinedInc, refinedInc.power);
      if refinedInc in tree {
        return;
      }
      ghost var above := LeafAbove(tree, top, inc, refinedInc);
      PredecessorIsLeafAbove(tree, top, above, refinedInc);
      var leafAbove :| IsPredecessor(tree, refinedInc, leafAbove);
      while leafAbove.ContainsDyadic(refinedInc) && leafAbove != refinedInc
        invariant Rooted() && OnlyAround(old(tree), tree, refinedInc, refinedInc.power) && old(run) <= run
        invariant IsLeaf(tree, leafAbove) && leafAbove.ContainsDyadic(refinedInc)
        invariant Splits() && old(Conserving(m, held, tree)) ==>
                  Conserving(m, held, tree) && KeepsValues(old(tree), tree)
        decreases refinedInc.power - leafAbove.power
      {
        HalfHolding(leafAbove, refinedInc);
        ghost var before := tree;
        leafAbove := InsertChildrenAndRefine(leafAbove, refinedInc);
        KeepsJoin(old(tree), before, tree);
        AroundJoin(old(tree), before, tree, refinedInc, refinedInc.power);
      }
      AccurateEverywhere(tree, Parent(leafAbove));
      BalancedEverywhere(m, tree, grown, leafAbove);
      ghost var before := tree;
      UpdateParents(leafAbove);
      KeepsJoin(old(tree), before, tree);
      HoldsFromParent(leafAbove, leafAbove);
      BelowIsAround(before, tree, Parent(leafAbove), refinedInc, refinedInc.power);
      AroundJoin(old(tree), before, tree, refinedInc, refinedInc.power);
    }

    /** Splits leaves below a node until it is accurate enough. */
    method RefineAccuracy(inc: DyadicInterval, desired: int)
      requires Rooted() && inc in tree && inc.power < desired
      modifies this`tree, this`run
      ensures Rooted() && old(run) <= run && inc in tree && tree[inc].accuracy >= desired
      ensures OnlyAround(old(tree), tree, inc, desired)
      ensures Splits() && old(Conserving(m, held, tree)) ==> Conserving(m, held, tree) && KeepsValues(old(tree), tree)
    {
      hide IsRun, Linked, Accurate, Balanced, Conserved, KeepsValues, SplitExact, AllHeld, EvensIn, Shift, Less,
        Rounded, OnlyAround;
      RefineBounds(inc, desired);
      var refinedInc := inc.ShrinkToContainedEnd(desired - inc.power);
      var refinedEnd := inc.Next().ShrinkToContainedEnd(desired - inc.power);
      ghost var from := refinedInc.multiplier;
      KeepsSelf(tree);
      EvensNone(tree, from, desired);
      AroundSelf(tree, inc, desired);
      while Less(refinedInc, refinedEnd)
        invariant Rooted() && OnlyAround(old(tree), tree, inc, desired) && old(run) <= run && inc in tree
        invariant refinedInc.power == desired && refinedInc.multiplier % 2 == 0
        invariant from <= refinedInc.multiplier <= refinedEnd.multiplier
        invariant EvensIn(tree, from, refinedInc.multiplier, desired)
        invariant Splits() && old(Conserving(m, held, tree)) ==>
                  Conserving(m, held, tree) && KeepsValues(old(tree), tree)
        decreases refinedEnd.multiplier - refinedInc.multiplier
      {
        LessSamePower(refinedInc, refinedEnd);
        ghost var before := tree;
        RefineAt(inc, refinedInc, from);
        KeepsJoin(old(tree), before, tree);
        AroundJoin(old(tree), before, tree, inc, desired);
        refinedInc := refinedInc.Next().Next();
      }
      LessSamePower(refinedInc, refinedEnd);
      ContainsItself(inc);
      EvensMakeAccurate(tree, top, inc, inc, desired);
    }

    /** One step of the refinement. */
    method RefineAt(inc: DyadicInterval, at: DyadicInterval, ghost from: int)
      requires Rooted() && inc in tree && inc.power < at.power && at.multiplier % 2 == 0
      requires Shift(inc.multiplier, at.power - inc.power) <= at.multiplier
      requires at.multiplier < Shift(inc.multiplier + 1, at.power - inc.power)
      requires EvensIn(tree, from, at.multiplier, at.power)
      modifies this`tree, this`run
      ensures Rooted() && OnlyAround(old(tree), tree, inc, at.power) && old(run) <= run && inc in tree
      ensures EvensIn(tree, from, at.multiplier + 2, at.power)
      ensures Splits() && old(Conserving(m, held, tree)) ==> Conserving(m, held, tree) && KeepsValues(old(tree), tree)
    {
      hide IsRun, Linked, Accurate, Balanced, Conserved, KeepsValues, SplitExact, AllHeld, EvensIn, Shift, OnlyAround;
      PlaceInside(inc, at.multiplier, at.power);
      InsertDownTo(inc, at);
      AroundWider(old(tree), tree, at, at.power, inc, at.power);
      AroundKeys(old(tree), tree, inc, at.power);
      EvensStay(old(tree), tree, from, at.multiplier, at.power);
      EvensStep(tree, from, at.multiplier, at.power);
    }

    /** A query over one dyadic interval. */
    method LogSignatureDyadic(interval: DyadicInterval, resolution: int) returns (lie: T)
      requires Valid() && (tree != map[] ==> SameSide(top.multiplier, interval.multiplier))
      modifies this
      ensures Rooted() && top.ContainsDyadic(interval) && SameSide(top.multiplier, interval.multiplier)
      ensures old(tree).Keys <= tree.Keys && old(run) <= run && interval in tree
      ensures OnlyAround(old(tree), tree, interval, Max(interval.power, resolution))
      ensures GrownAbove(if old(tree) == map[] then {} else old(grown), grown,
                         if old(tree) == map[] then interval else old(top))
      ensures old(tree) != map[] ==> top.ContainsDyadic(old(top))
      ensures lie == tree[interval].lie && tree[interval].accuracy >= resolution
      ensures Exact() && old(Faithful()) ==> Faithful() && KeepsValues(old(tree), tree)
      ensures old(tree != map[] && top.ContainsDyadic(interval)) ==> top == old(top)
      ensures Splits() && old(Conserving(m, held, tree) && tree != map[] && top.ContainsDyadic(interval)) ==>
                Conserving(m, held, tree) && KeepsValues(old(tree), tree)
      ensures old(tree == map[]) && interval.power >= resolution ==> tree == SingleTree(interval) && top == interval
      ensures old(interval in tree && tree[interval].accuracy >= resolution) ==> tree == old(tree) && top == old(top)
      ensures interval.power >= resolution && old(SplitsAbove(tree, interval)) ==>
                var leaf := Parent(interval);
                top == old(top) && leaf in tree && tree[leaf].lie == SplitProduct(m, split, leaf, old(tree[leaf].lie))
    {
      hide IsRun, Linked, Accurate, Balanced, Conserved, KeepsValues, SplitExact, GrowthExact, AllHeld, OnlyAround,
        GrownAbove;
      ghost var finest := Max(interval.power, resolution);
      KeepsSelf(tree);
      ContainsItself(interval);
      NoneGrownSince(grown, top);
      OldRoot(tree, top);
      if interval in tree {
        FamilyRoot(tree, top, interval);
        RootIn(tree, top);
        lie := Refined(interval, resolution);
        AroundKeys(old(tree), tree, interval, finest);
        RootKept(old(tree), tree, top);
        return;
      }
      AroundSelf(tree, interval, finest);
      if tree == map[] {
        PlaceFirst(interval);
        FirstAround(interval, tree[interval], finest);
        NoneGrownSince(grown, top);
        if tree[interval].accuracy >= resolution {
          return tree[interval].lie;
        }
      }
      ghost var begun := tree;
      ghost var begunTop := top;
      ghost var begunGrown := grown;
      Reach(interval);
      AroundWider(begun, tree, interval, interval.power, interval, finest);
      AroundJoin(old(tree), begun, tree, interval, finest);
      ghost var reached := tree;
      RootIn(tree, top);
      FamilyRoot(tree, top, interval);
      AccuracyAtLeast(tree, interval);
      lie := Refined(interval, resolution);
      AroundJoin(old(tree), reached, tree, interval, finest);
      AroundKeys(old(tree), tree, interval, finest);
      AroundKeys(reached, tree, interval, finest);
      RootKept(reached, tree, top);
      KeepsJoin(begun, reached, tree);
      KeepsJoin(old(tree), begun, tree);
      RootHolds(old(tree), old(top), tree, top);
    }

    function SingleTree(interval: DyadicInterval): Tree<T> {
      map[interval := Node(newRoot(interval), interval.power, None, None)]
    }

    /** The first node is the root. */
    method PlaceFirst(interval: DyadicInterval)
      requires tree == map[]
      modifies this
      ensures Rooted() && tree == SingleTree(interval) && top == interval && KeepsValues(map[], tree) && grown == {}
      ensures Exact() ==> Faithful()
    {
      hide IsRun, Linked, Accurate, Balanced, Conserved, KeepsValues, SplitExact, GrowthExact, AllHeld;
      tree := SingleTree(interval);
      top, grown := interval, {};
      run := [State(tree, top)];
      StartRun(AllHooks(), State(tree, top));
      SingleNode(m, interval, newRoot(interval));
      SingleBalanced(m, interval, tree[interval]);
      if Grows() {
        HeldAtFirst(m, newRoot, newNeighbour, held, interval);
      }
    }

    /** Grows the root and splits leaves until the interval is a node. */
    method Reach(interval: DyadicInterval)
      requires Rooted() && SameSide(top.multiplier, interval.multiplier)
      modifies this
      ensures Rooted() && interval in tree && old(run) <= run
      ensures OnlyAround(old(tree), tree, interval, interval.power) && GrownAbove(old(grown), grown, old(top))
      ensures Exact() && old(Faithful()) ==> Faithful() && KeepsValues(old(tree), tree)
      ensures old(top.ContainsDyadic(interval)) ==> top == old(top)
      ensures Splits() && old(Conserving(m, held, tree) && top.ContainsDyadic(interval)) ==>
                Conserving(m, held, tree) && KeepsValues(old(tree), tree)
      ensures old(SplitsAbove(tree, interval)) ==>
                var leaf := Parent(interval);
                top == old(top) && leaf in tree && tree[leaf].lie == SplitProduct(m, split, leaf, old(tree[leaf].lie))
    {
      hide IsRun, Linked, Accurate, Balanced, Conserved, KeepsValues, SplitExact, GrowthExact, AllHeld, SplitsAbove,
        OnlyAround, GrownAbove;
      RootIsFirst(tree, top);
      var root :| IsFirst(tree, root);
      FirstIsUnique(tree, root, top);
      SplitsBelowRoot(tree, top, interval);
      root := ExpandRootUntilContains(root, interval);
      RootIn(tree, top);
      ghost var holding := tree;
      root := WalkDown(root, interval);
      OneLeafAbove(tree, top, root, interval);
      root := SplitDownTo(root, interval);
      AroundKeys(holding, tree, interval, interval.power);
      RootKept(holding, tree, top);
      KeepsJoin(old(tree), holding, tree);
      AroundJoin(old(tree), holding, tree, interval, interval.power);
    }

    /** The value of a node, made accurate enough. */
    method Refined(node: DyadicInterval, resolution: int) returns (lie: T)
      requires Rooted() && node in tree
      modifies this`tree, this`run
      ensures Rooted() && old(run) <= run && OnlyAround(old(tree), tree, node, Max(node.power, resolution))
      ensures node in tree && lie == tree[node].lie && tree[node].accuracy >= resolution
      ensures old(tree[node].accuracy) >= resolution ==> tree == old(tree)
      ensures Splits() && old(Conserving(m, held, tree)) ==> Conserving(m, held, tree) && KeepsValues(old(tree), tree)
    {
      hide IsRun, Linked, Balanced, Conserved, KeepsValues, SplitExact, GrowthExact, AllHeld, OnlyAround;
      KeepsSelf(tree);
      AroundSelf(tree, node, Max(node.power, resolution));
      if tree[node].accuracy < resolution {
        assert AccurateAt(tree, node);
        RefineAccuracy(node, resolution);
      }
      lie := tree[node].lie;
    }

    /** Goes down from the root to the interval, or to the leaf above it. */
    method WalkDown(start: DyadicInterval, interval: DyadicInterval) returns (root: DyadicInterval)
      requires Rooted() && start in tree && start.ContainsDyadic(interval)
      ensures root in tree && root.ContainsDyadic(interval) && (root == interval || IsLeaf(tree, root))
    {
      hide IsRun, Linked, Accurate, Balanced, IsLeaf;
      root := start;
      while root != interval && tree[root].accuracy != root.power
        invariant root in tree && root.ContainsDyadic(interval)
        decreases interval.power - root.power
      {
        LeafTest(tree, top, root);
        InnerNode(tree, top, root, interval);
        var left :| IsSuccessor(tree, root, left);
        var right := tree[left].sibling.value;
        if left.ContainsDyadic(interval) {
          root := left;
        } else {
          root := right;
        }
      }
      LeafTest(tree, top, root);
    }

    /** Splits leaves until the interval itself is a leaf. */
    method SplitDownTo(start: DyadicInterval, interval: DyadicInterval) returns (root: DyadicInterval)
      requires Rooted() && start in tree && start.ContainsDyadic(interval) && (start == interval || IsLeaf(tree, start))
      modifies this`tree, this`run
      ensures Rooted() && old(run) <= run && root == interval && interval in tree
      ensures OnlyAround(old(tree), tree, interval, interval.power)
      ensures interval.power == start.power + 1 ==>
                start in tree && tree[start].lie == SplitProduct(m, split, start, old(tree[start].lie))
      ensures Splits() && old(Conserving(m, held, tree)) ==> Conserving(m, held, tree) && KeepsValues(old(tree), tree)
    {
      hide IsRun, Linked, Accurate, Balanced, Conserved, KeepsValues, SplitExact, GrowthExact, AllHeld, OnlyAround;
      root := start;
      KeepsSelf(tree);
      AroundSelf(tree, interval, interval.power);
      while root != interval
        invariant Rooted() && OnlyAround(old(tree), tree, interval, interval.power) && old(run) <= run
        invariant start in tree
        invariant root in tree && root.ContainsDyadic(interval) && (root == interval || IsLeaf(tree, root))
        invariant root == start ==> tree == old(tree)
        invariant root.power == start.power + 1 ==>
                    start in tree && tree[start].lie == SplitProduct(m, split, start, old(tree[start].lie))
        invariant root.power > start.power || root == start
        invariant Splits() && old(Conserving(m, held, tree)) ==>
                  Conserving(m, held, tree) && KeepsValues(old(tree), tree)
        decreases interval.power - root.power
      {
        HalfHolding(root, interval);
        ghost var before := tree;
        root := InsertChildrenAndRefine(root, interval);
        KeepsJoin(old(tree), before, tree);
        AroundJoin(old(tree), before, tree, interval, interval.power);
        AroundKeys(before, tree, interval, interval.power);
      }
    }

    /** The test of `StreamInterface::empty`. */
    predicate Outside(inf: real, sup: real) {
      sup < supportInf || inf >= supportSup
    }

    /** `StreamInterface::empty`: no number from inf up to sup, both included, is in the support. */
    method IsEmpty(inf: real, sup: real) returns (empty: bool)
      ensures empty == Outside(inf, sup)
      ensures inf <= sup && supportInf < supportSup ==>
                (empty <==> forall x: real {:trigger InSupport(x)} :: inf <= x <= sup ==> !InSupport(x))
    {
      if inf <= sup && supportInf < supportSup {
        OutsideIsClosed(inf, sup);
      }
      empty := Outside(inf, sup);
    }

    ghost predicate InSupport(x: real) {
      supportInf <= x < supportSup
    }

    ghost predicate Meets(inf: real, sup: real) {
      exists x: real :: inf <= x < sup && InSupport(x)
    }

    lemma OutsideIsClosed(inf: real, sup: real)
      requires inf <= sup && supportInf < supportSup
      ensures Outside(inf, sup) <==> forall x: real {:trigger InSupport(x)} :: inf <= x <= sup ==> !InSupport(x)
    {
      if !Outside(inf, sup) {
        var x := if inf < supportInf then supportInf else inf;
        assert InSupport(x);
      }
    }

    /** The test is for clopen queries: one that meets the support is never outside, and one that
        does not is missed exactly if it ends where the support begins. */
    lemma MissesTouching(inf: real, sup: real)
      requires inf < sup && supportInf < supportSup
      ensures Outside(inf, sup) ==> !Meets(inf, sup)
      ensures !Meets(inf, sup) ==> (!Outside(inf, sup) <==> sup == supportInf)
    {
      if !Outside(inf, sup) && sup != supportInf {
        var x := if inf < supportInf then supportInf else inf;
        assert InSupport(x);
      }
    }

    /** What a query must not do is to go across zero from the root; one outside the support, or one
        with both ends in one grain, does not. */
    ghost predicate Answerable(inf: real, sup: real, r: int)
      reads this
    {
      Outside(inf, sup) || FloorAt(inf, r) == FloorAt(sup, r)
      || ((FloorAt(inf, r) >= 0 || FloorAt(sup, r) <= 0)
          && (tree != map[] ==> SameSide(top.multiplier, FloorAt(inf, r))))
    }

    /** A query over any interval that does not go across zero from the root. */
    method LogSignature(inf: real, sup: real, resolution: int) returns (lie: T)
      requires Valid() && Lawful(m) && inf <= sup
      requires Answerable(inf, sup, resolution)
      modifies this
      ensures Valid() && old(tree).Keys <= tree.Keys && old(run) <= run
      ensures Outside(inf, sup) ==> lie == m.one && tree == old(tree) && top == old(top) && grown == old(grown)
      ensures !Outside(inf, sup) ==> Answered(tree, inf, sup, resolution)
      ensures Exact() && old(Faithful()) ==> Faithful() && KeepsValues(old(tree), tree)
      ensures Splits() && old(Conserving(m, held, tree) && Under(tree, top, inf, sup, resolution)) ==>
                Conserving(m, held, tree) && KeepsValues(old(tree), tree) && top == old(top)
      ensures !Outside(inf, sup) ==> lie == Answer(m, tree, inf, sup, resolution)
      ensures !Outside(inf, sup) ==>
                AllAccurate(tree, Pieces(FloorAt(inf, resolution), FloorAt(sup, resolution), resolution), resolution)
      ensures NotRefinedBeyond(old(tree), tree, resolution)
      ensures !Outside(inf, sup) ==>
                GrownFrom(old(tree), old(top), old(grown), tree, top, grown,
                          Pieces(FloorAt(inf, resolution), FloorAt(sup, resolution), resolution))
    {
      hide IsRun, Linked, Accurate, Balanced, Conserved, KeepsValues, SplitExact, GrowthExact, AllHeld, Pieces,
        NotRefinedBeyond, GrownFrom, AllAccurate;
      NotRefinedSelf(tree, resolution);
      KeepsSelf(tree);
      var empty := IsEmpty(inf, sup);
      if empty {
        return m.one;
      }
      var dissection := ToDyadicIntervals(inf, sup, resolution);
      var lies := QueryAll(dissection, resolution, FloorAt(inf, resolution), FloorAt(sup, resolution));
      ghost var multiplied;
      lie, multiplied := Cbh(m, lies);
    }

    method QueryAll(dissection: seq<DyadicInterval>, resolution: int, ghost b: int, ghost e: int) returns (lies: seq<T>)
      requires Valid() && b <= e && dissection == Pieces(b, e, resolution)
      requires b < e ==> (b >= 0 || e <= 0) && (tree != map[] ==> SameSide(top.multiplier, b))
      modifies this
      ensures Valid() && old(tree).Keys <= tree.Keys && old(run) <= run && AllIn(tree, dissection)
      ensures Exact() && old(Faithful()) ==> Faithful() && KeepsValues(old(tree), tree)
      ensures Splits() && old(Conserving(m, held, tree) && AllUnder(tree, top, dissection)) ==>
                Conserving(m, held, tree) && KeepsValues(old(tree), tree) && top == old(top)
      ensures lies == NodeValues(tree, dissection) && AllAccurate(tree, dissection, resolution)
      ensures NotRefinedBeyond(old(tree), tree, resolution)
      ensures GrownFrom(old(tree), old(top), old(grown), tree, top, grown, dissection)
    {
      hide IsRun, Linked, Accurate, Balanced, Conserved, KeepsValues, SplitExact, GrowthExact, AllHeld, Pieces,
        NotRefinedBeyond, OnlyAround, GrownAbove, Answering, GrownFrom;
      NotGrownYet(tree, top, grown);
      lies := [];
      KeepsSelf(tree);
      NothingAnswered(tree, dissection, resolution);
      NotRefinedSelf(tree, resolution);
      NoPieces(b, e, resolution);
      ghost var quiet := Splits() && Conserving(m, held, tree) && AllUnder(tree, top, dissection);
      for i := 0 to |dissection|
        invariant Valid() && old(tree).Keys <= tree.Keys && old(run) <= run
        invariant Answering(tree, dissection, i, resolution, lies)
        invariant NotRefinedBeyond(old(tree), tree, resolution)
        invariant b < e && tree != map[] ==> SameSide(top.multiplier, b)
        invariant Exact() && old(Faithful()) ==> Faithful() && KeepsValues(old(tree), tree)
        invariant quiet ==>
                  Conserving(m, held, tree) && KeepsValues(old(tree), tree) && top == old(top) && tree != map[]
        invariant GrownFrom(old(tree), old(top), old(grown), tree, top, grown, dissection[..i])
      {
        PieceSide(b, e, resolution, i);
        ghost var before, beforeTop, beforeGrown := tree, top, grown;
        var lie := LogSignatureDyadic(dissection[i], resolution);
        KeepsJoin(old(tree), before, tree);
        PieceAsked(before, tree, b, e, resolution, i, lies, lie);
        NotRefinedJoin(old(tree), before, tree, resolution);
        GrownStep(old(tree), old(top), old(grown), before, beforeTop, beforeGrown, tree, top, grown, dissection, i);
        lies := lies + [lie];
      }
      assert dissection[..|dissection|] == dissection;
      AllAnswered(tree, dissection, resolution, lies);
    }
  }

  lemma OldRoot<T>(tree: Tree<T>, top: DyadicInterval)
    requires tree != map[] ==> Linked(tree, top)
    ensures tree != map[] ==> top in tree && top.ContainsDyadic(top)
  {
  }

  /** A later root holds the earlier one. */
  lemma RootHolds<T>(before: Tree<T>, root: DyadicInterval, after: Tree<T>, top: DyadicInterval)
    requires before.Keys <= after.Keys && Linked(after, top)
    ensures root in before ==> top.ContainsDyadic(root)
  {
  }

  /** What growing a root keeps. */
  lemma GrowAll<T(!new)>(h: Hooks<T>, held: Held<T>, tree: Tree<T>, root: DyadicInterval, grown: set<DyadicInterval>)
    requires Linked(tree, root) && Accurate(tree) && Balanced(h.m, tree, grown)
    ensures root in tree && Parent(root) !in tree && Sibling(root) !in tree && Parent(root) != Sibling(root)
    ensures Sibling(root) == if root.Aligned() then Parent(root).RightHalf() else Parent(root).LeftHalf()
    ensures var tree' := WithRoot(tree, root, h.newRoot(Parent(root)), h.newNeighbour(Sibling(root)));
            && Linked(tree', Parent(root)) && Accurate(tree') && Balanced(h.m, tree', grown + {Parent(root)})
            && tree.Keys <= tree'.Keys && tree' != map[]
            && Parent(root) in tree' && tree'[Parent(root)].lie == h.newRoot(Parent(root))
            && (GrowthExact(h.m, h.newRoot, h.newNeighbour, held) && Conserving(h.m, held, tree)
                && tree[root].lie == h.newRoot(root) ==>
                  Conserving(h.m, held, tree') && KeepsValues(tree, tree'))
  {
    hide Linked, Accurate, Balanced, Conserved, AllHeld, KeepsValues, GrowthExact;
    var rootLie, neighbourLie := h.newRoot(Parent(root)), h.newNeighbour(Sibling(root));
    RootIn(tree, root);
    GrowthStep(h.m, tree, root, rootLie, neighbourLie);
    GrowBalanced(h.m, tree, root, grown, rootLie, neighbourLie);
    if GrowthExact(h.m, h.newRoot, h.newNeighbour, held) && AllHeld(held, tree) {
      FamilyFacts(root);
      GrowthInstance(h.m, h.newRoot, h.newNeighbour, held, Parent(root));
      HeldAfterGrowth(h.m, h.newRoot, h.newNeighbour, held, tree, root);
    }
  }

  /** What raising a parent keeps. */
  lemma RaiseAll<T>(m: Monoid<T>, held: Held<T>, before: Tree<T>, tree: Tree<T>, root: DyadicInterval,
                    grown: set<DyadicInterval>, k: DyadicInterval, lie: T)
    requires Linked(tree, root) && AccurateBut(tree, Parent(k)) && LinkedAt(tree, k)
    requires Parent(k).LeftHalf() in tree && Parent(k).RightHalf() in tree
    requires BalancedBut(m, tree, grown, Parent(k)) && ChildAccuracy(tree, Parent(k)) > tree[Parent(k)].accuracy
    requires lie == HalvesProduct(m, tree, Parent(k))
    requires lie == if k.Aligned() then m.mul(tree[k].lie, tree[Sibling(k)].lie)
                    else m.mul(tree[Sibling(k)].lie, tree[k].lie)
    ensures var tree' := Raised(tree, Parent(k), lie, ChildAccuracy(tree, Parent(k)));
            && Linked(tree', root) && SameShape(tree, tree') && AccurateBut(tree', Parent(Parent(k)))
            && BalancedBut(m, tree', grown, Parent(Parent(k))) && Leads(m, tree', grown, Parent(k))
            && (SameShape(before, tree) ==> SameShape(before, tree'))
            && (Conserving(m, held, tree) && KeepsValues(before, tree) ==>
                  Conserving(m, held, tree') && KeepsValues(before, tree'))
  {
    hide IsRun, Linked, AccurateBut, BalancedBut, Leads, Conserved, AllHeld, KeepsValues, SameShape;
    var tree' := Raised(tree, Parent(k), lie, ChildAccuracy(tree, Parent(k)));
    RaiseStep(m, tree, root, k, lie);
    RaiseBalanced(m, tree, grown, Parent(k), lie);
    if Conserving(m, held, tree) {
      HeldKept(held, tree, tree');
    }
    KeepsJoin(before, tree, tree');
  }

  /** The root holds all pieces: the query does not grow it. */
  ghost predicate AllUnder<T>(tree: Tree<T>, top: DyadicInterval, pieces: seq<DyadicInterval>) {
    tree != map[] && forall i :: 0 <= i < |pieces| ==> top.ContainsDyadic(pieces[i])
  }

  ghost predicate Under<T>(tree: Tree<T>, top: DyadicInterval, inf: real, sup: real, r: int) {
    FloorAt(inf, r) <= FloorAt(sup, r) && AllUnder(tree, top, Pieces(FloorAt(inf, r), FloorAt(sup, r), r))
  }

  lemma NoPieces(b: int, e: int, r: int)
    requires b <= e
    ensures Pieces(b, e, r) != [] ==> b < e
  {
  }

  /** All pieces of a range that does not go across zero are on one side of it. */
  lemma PieceSide(b: int, e: int, r: int, i: nat)
    requires b <= e && (b >= 0 || e <= 0) && i < |Pieces(b, e, r)|
    ensures SameSide(b, Pieces(b, e, r)[i].multiplier)
  {
    PiecesAreMaximal(b, e, r);
    TilesBounds(Pieces(b, e, r), b, e, r, i);
    var d := Pieces(b, e, r)[i];
    if d.multiplier >= 0 {
      ShiftMono(0, d.multiplier, r - d.power);
    } else {
      ShiftMono(d.multiplier + 1, 0, r - d.power);
    }
    assert Shift(0, r - d.power) == 0;
  }
}
