/** The three ways in which the lazily grown tree changes, and what each of them keeps. */
module DynamicGrowth {
  import opened Wrappers
  import opened Powers
  import opened DyadicIntervals
  import opened Monoids
  import opened DynamicTree

  // ----- values -----

  /** A node is the ordered product of its halves. */
  ghost predicate ConservedAt<T>(m: Monoid<T>, tree: Tree<T>, k: DyadicInterval)
    requires k in tree
  {
    k.LeftHalf() in tree && k.RightHalf() in tree ==>
      tree[k].lie == m.mul(tree[k.LeftHalf()].lie, tree[k.RightHalf()].lie)
  }

  ghost predicate Conserved<T>(m: Monoid<T>, tree: Tree<T>) {
    forall k: DyadicInterval :: k in tree ==> ConservedAt(m, tree, k)
  }

  /** Nodes that were there still are, with the values they had. */
  ghost predicate KeepsValues<T>(before: Tree<T>, after: Tree<T>) {
    forall k: DyadicInterval :: k in before ==> k in after && after[k].lie == before[k].lie
  }

  // ----- splitting a leaf -----

  function WithChildren<T>(tree: Tree<T>, leaf: DyadicInterval, l: T, r: T): Tree<T> {
    tree[leaf.LeftHalf() := Node(l, leaf.power + 1, Some(leaf), Some(leaf.RightHalf()))]
        [leaf.RightHalf() := Node(r, leaf.power + 1, Some(leaf), Some(leaf.LeftHalf()))]
  }

  lemma WithChildrenLinked<T>(tree: Tree<T>, root: DyadicInterval, leaf: DyadicInterval, l: T, r: T)
    requires Linked(tree, root) && IsLeaf(tree, leaf)
    ensures Linked(WithChildren(tree, leaf, l, r), root)
  {
    var tree' := WithChildren(tree, leaf, l, r);
    ChildFacts(leaf);
    HalvesTogether(tree, root, leaf);
    ContainsTransitive(root, leaf, leaf.LeftHalf());
    ContainsTransitive(root, leaf, leaf.RightHalf());
    forall k: DyadicInterval | k in tree'
      ensures root.ContainsDyadic(k) && (k != root ==> LinkedAt(tree', k))
    {
      if k in tree && k != root {
        assert LinkedAt(tree, k);
      }
    }
  }

  lemma WithChildrenAccurate<T>(tree: Tree<T>, root: DyadicInterval, leaf: DyadicInterval, l: T, r: T)
    requires Linked(tree, root) && Accurate(tree) && IsLeaf(tree, leaf)
    ensures AccurateBut(WithChildren(tree, leaf, l, r), leaf)
  {
    var tree' := WithChildren(tree, leaf, l, r);
    HalvesTogether(tree, root, leaf);
    NothingBelowNew(tree, root, leaf);
    assert AccurateAt(tree, leaf);
    forall k: DyadicInterval | k in tree' && k != leaf
      ensures AccurateAt(tree', k)
    {
      ChildFacts(k);
      ChildFacts(leaf);
      if k in tree {
        assert AccurateAt(tree, k);
        assert k.LeftHalf() != leaf.LeftHalf() && k.RightHalf() != leaf.RightHalf();
      }
    }
  }

  lemma NothingBelowNew<T>(tree: Tree<T>, root: DyadicInterval, leaf: DyadicInterval)
    requires Linked(tree, root) && IsLeaf(tree, leaf)
    ensures leaf.LeftHalf().LeftHalf() !in tree && leaf.LeftHalf().RightHalf() !in tree
    ensures leaf.RightHalf().LeftHalf() !in tree && leaf.RightHalf().RightHalf() !in tree
  {
    NotBelowLeaf(tree, root, leaf, leaf.LeftHalf());
    NotBelowLeaf(tree, root, leaf, leaf.RightHalf());
  }

  lemma NotBelowLeaf<T>(tree: Tree<T>, root: DyadicInterval, leaf: DyadicInterval, half: DyadicInterval)
    requires Linked(tree, root) && IsLeaf(tree, leaf) && (half == leaf.LeftHalf() || half == leaf.RightHalf())
    ensures half.LeftHalf() !in tree && half.RightHalf() !in tree
  {
    ChildFacts(leaf);
    ChildFacts(half);
    ContainsTransitive(leaf, half, half.LeftHalf());
    ContainsTransitive(leaf, half, half.RightHalf());
    if half.LeftHalf() in tree {
      LeafHasNothingBelow(tree, root, leaf, half.LeftHalf());
    }
    if half.RightHalf() in tree {
      LeafHasNothingBelow(tree, root, leaf, half.RightHalf());
    }
  }

  lemma WithChildrenConserved<T>(m: Monoid<T>, tree: Tree<T>, root: DyadicInterval, leaf: DyadicInterval, l: T, r: T)
    requires Linked(tree, root) && IsLeaf(tree, leaf) && Conserved(m, tree)
    requires m.mul(l, r) == tree[leaf].lie
    ensures Conserved(m, WithChildren(tree, leaf, l, r))
    ensures KeepsValues(tree, WithChildren(tree, leaf, l, r))
  {
    var tree' := WithChildren(tree, leaf, l, r);
    HalvesTogether(tree, root, leaf);
    NothingBelowNew(tree, root, leaf);
    forall k: DyadicInterval | k in tree'
      ensures ConservedAt(m, tree', k)
    {
      ChildFacts(k);
      ChildFacts(leaf);
      if k in tree && k != leaf {
        assert ConservedAt(m, tree, k);
        assert k.LeftHalf() != leaf.LeftHalf() && k.RightHalf() != leaf.RightHalf();
      }
    }
  }

  // ----- raising the accuracy of a parent -----

  function Raised<T>(tree: Tree<T>, p: DyadicInterval, lie: T, accuracy: int): Tree<T>
    requires p in tree
  {
    tree[p := tree[p].(lie := lie, accuracy := accuracy)]
  }

  lemma RaisedLinked<T>(tree: Tree<T>, root: DyadicInterval, p: DyadicInterval, lie: T, accuracy: int)
    requires Linked(tree, root) && p in tree
    ensures Linked(Raised(tree, p, lie, accuracy), root) && SameShape(tree, Raised(tree, p, lie, accuracy))
  {
    var tree' := Raised(tree, p, lie, accuracy);
    forall k: DyadicInterval | k in tree'
      ensures root.ContainsDyadic(k) && (k != root ==> LinkedAt(tree', k))
    {
      if k != root {
        assert LinkedAt(tree, k);
      }
    }
  }

  /** After a parent has been raised only its own parent can be behind. */
  lemma RaisedAccurate<T>(tree: Tree<T>, root: DyadicInterval, p: DyadicInterval, lie: T)
    requires Linked(tree, root) && AccurateBut(tree, p) && p in tree && p.LeftHalf() in tree
    requires ModestAt(tree, p) && tree[p].accuracy < ChildAccuracy(tree, p)
    ensures AccurateBut(Raised(tree, p, lie, ChildAccuracy(tree, p)), Parent(p))
  {
    var avail := ChildAccuracy(tree, p);
    forall k: DyadicInterval | k in tree && k != Parent(p)
      ensures AccurateAt(Raised(tree, p, lie, avail), k)
    {
      RaisedAccurateAt(tree, p, lie, avail, k);
    }
    if Parent(p) in tree {
      RaisedModestAt(tree, p, lie, avail);
    }
  }

  lemma RaisedAccurateAt<T>(tree: Tree<T>, p: DyadicInterval, lie: T, avail: int, k: DyadicInterval)
    requires k in tree && k != Parent(p) && p in tree && p.LeftHalf() in tree && p.RightHalf() in tree
    requires k != p ==> AccurateAt(tree, k)
    requires avail == ChildAccuracy(tree, p) && tree[p].accuracy < avail && tree[p].accuracy >= p.power
    ensures AccurateAt(Raised(tree, p, lie, avail), k)
  {
    ChildFacts(k);
    assert k.LeftHalf() != p && k.RightHalf() != p;
  }

  lemma RaisedModestAt<T>(tree: Tree<T>, p: DyadicInterval, lie: T, avail: int)
    requires p in tree && Parent(p) in tree && Parent(p) != p && AccurateAt(tree, Parent(p))
    requires tree[p].accuracy < avail
    ensures ModestAt(Raised(tree, p, lie, avail), Parent(p))
  {
    ChildFacts(Parent(p));
  }

  lemma RaisedConserved<T>(m: Monoid<T>, tree: Tree<T>, p: DyadicInterval, accuracy: int)
    requires Conserved(m, tree) && p in tree && p.LeftHalf() in tree && p.RightHalf() in tree
    ensures var tree' := Raised(tree, p, m.mul(tree[p.LeftHalf()].lie, tree[p.RightHalf()].lie), accuracy);
            Conserved(m, tree') && KeepsValues(tree, tree')
  {
    var tree' := Raised(tree, p, m.mul(tree[p.LeftHalf()].lie, tree[p.RightHalf()].lie), accuracy);
    assert ConservedAt(m, tree, p);
    forall k: DyadicInterval | k in tree'
      ensures ConservedAt(m, tree', k)
    {
      assert ConservedAt(m, tree, k);
    }
  }

  lemma NothingBehind<T>(tree: Tree<T>, x: DyadicInterval)
    requires AccurateBut(tree, x)
    requires x in tree ==> x.LeftHalf() in tree && x.RightHalf() in tree && tree[x].accuracy >= ChildAccuracy(tree, x)
    ensures Accurate(tree)
  {
  }

  lemma NoParentOfRoot<T>(tree: Tree<T>, root: DyadicInterval)
    requires Linked(tree, root)
    ensures Parent(root) !in tree
  {
    ContainsIsUp(root, Parent(root));
  }

  // ----- growing a new root -----

  function WithRoot<T>(tree: Tree<T>, root: DyadicInterval, rootLie: T, neighbourLie: T): Tree<T>
    requires root in tree
  {
    tree[Sibling(root) := Node(neighbourLie, root.power, Some(Parent(root)), Some(root))]
        [Parent(root) := Node(rootLie, root.power, None, None)]
        [root := tree[root].(parent := Some(Parent(root)), sibling := Some(Sibling(root)))]
  }

  lemma GrowthFacts<T>(tree: Tree<T>, root: DyadicInterval)
    requires Linked(tree, root)
    ensures Parent(root) !in tree && Sibling(root) !in tree
    ensures Parent(root).ContainsDyadic(root) && Parent(root).ContainsDyadic(Sibling(root))
    ensures Parent(root).ContainsDyadic(Parent(root))
    ensures Parent(Sibling(root)) == Parent(root) && Sibling(Sibling(root)) == root
    ensures Sibling(root).LeftHalf() !in tree && Sibling(root).RightHalf() !in tree
    ensures {root, Sibling(root)} == {Parent(root).LeftHalf(), Parent(root).RightHalf()}
  {
    FamilyFacts(root);
    ChildFacts(Parent(root));
    ChildFacts(Sibling(root));
    ContainsIsUp(root, Parent(root));
    ContainsIsUp(root, Sibling(root));
    assert Up(Sibling(root).multiplier, 0) == Sibling(root).multiplier;
    NotUnderRoot(root, Sibling(root).LeftHalf());
    NotUnderRoot(root, Sibling(root).RightHalf());
  }

  lemma NotUnderRoot(root: DyadicInterval, d: DyadicInterval)
    requires Sibling(root).ContainsDyadic(d)
    ensures !root.ContainsDyadic(d)
  {
    ContainsIsUp(Sibling(root), d);
    ContainsIsUp(root, d);
  }

  lemma WithRootLinked<T>(tree: Tree<T>, root: DyadicInterval, rootLie: T, neighbourLie: T)
    requires Linked(tree, root)
    ensures Linked(WithRoot(tree, root, rootLie, neighbourLie), Parent(root))
  {
    var tree' := WithRoot(tree, root, rootLie, neighbourLie);
    GrowthFacts(tree, root);
    forall k: DyadicInterval | k in tree'
      ensures Parent(root).ContainsDyadic(k) && (k != Parent(root) ==> LinkedAt(tree', k))
    {
      if k in tree && k != root {
        OldLinkedAt(tree, root, rootLie, neighbourLie, k);
      }
    }
  }

  lemma OldLinkedAt<T>(tree: Tree<T>, root: DyadicInterval, rootLie: T, neighbourLie: T, k: DyadicInterval)
    requires Linked(tree, root) && k in tree && k != root
    ensures Parent(root).ContainsDyadic(k) && LinkedAt(WithRoot(tree, root, rootLie, neighbourLie), k)
  {
    GrowthFacts(tree, root);
    LinkedContains(tree, root, k);
    assert LinkedAt(tree, k);
    hide Linked;
    ContainsTransitive(Parent(root), root, k);
  }

  lemma WithRootAccurate<T>(tree: Tree<T>, root: DyadicInterval, rootLie: T, neighbourLie: T)
    requires Linked(tree, root) && Accurate(tree)
    ensures Accurate(WithRoot(tree, root, rootLie, neighbourLie))
  {
    var tree' := WithRoot(tree, root, rootLie, neighbourLie);
    GrowthFacts(tree, root);
    assert AccurateAt(tree, root);
    forall k: DyadicInterval | k in tree'
      ensures AccurateAt(tree', k)
    {
      if k in tree {
        OldAccurateAt(tree, root, rootLie, neighbourLie, k);
      } else if k == Parent(root) {
        NewRootAccurate(tree, root, rootLie, neighbourLie);
      } else {
        NeighbourAccurate(tree, root, rootLie, neighbourLie);
      }
    }
  }

  lemma OldAccurateAt<T>(tree: Tree<T>, root: DyadicInterval, rootLie: T, neighbourLie: T, k: DyadicInterval)
    requires Linked(tree, root) && k in tree && AccurateAt(tree, k)
    requires Parent(root) !in tree && Sibling(root) !in tree
    ensures AccurateAt(WithRoot(tree, root, rootLie, neighbourLie), k)
  {
    NewAboveOnly(tree, root, k);
  }

  lemma NewRootAccurate<T>(tree: Tree<T>, root: DyadicInterval, rootLie: T, neighbourLie: T)
    requires root in tree && tree[root].accuracy >= root.power && Parent(root) !in tree && Sibling(root) !in tree
    requires {root, Sibling(root)} == {Parent(root).LeftHalf(), Parent(root).RightHalf()}
    ensures AccurateAt(WithRoot(tree, root, rootLie, neighbourLie), Parent(root))
  {
    FamilyFacts(root);
  }

  lemma NeighbourAccurate<T>(tree: Tree<T>, root: DyadicInterval, rootLie: T, neighbourLie: T)
    requires root in tree && Sibling(root).LeftHalf() !in tree
    ensures AccurateAt(WithRoot(tree, root, rootLie, neighbourLie), Sibling(root))
  {
  }

  /** The halves of an old node are old, if they are there at all. */
  lemma NewAboveOnly<T>(tree: Tree<T>, root: DyadicInterval, k: DyadicInterval)
    requires Linked(tree, root) && k in tree
    ensures k.LeftHalf() != Parent(root) && k.LeftHalf() != Sibling(root) && k.LeftHalf() != root
    ensures k.RightHalf() != Parent(root) && k.RightHalf() != Sibling(root) && k.RightHalf() != root
  {
    ContainsIsUp(root, k);
  }

  lemma WithRootConserved<T>(m: Monoid<T>, tree: Tree<T>, root: DyadicInterval, rootLie: T, neighbourLie: T)
    requires Linked(tree, root) && Conserved(m, tree)
    requires rootLie == if root.Aligned() then m.mul(tree[root].lie, neighbourLie)
             else m.mul(neighbourLie, tree[root].lie)
    ensures Conserved(m, WithRoot(tree, root, rootLie, neighbourLie))
    ensures KeepsValues(tree, WithRoot(tree, root, rootLie, neighbourLie))
  {
    var tree' := WithRoot(tree, root, rootLie, neighbourLie);
    GrowthFacts(tree, root);
    forall k: DyadicInterval | k in tree'
      ensures ConservedAt(m, tree', k)
    {
      if k in tree {
        OldConservedAt(m, tree, root, rootLie, neighbourLie, k);
      } else if k == Parent(root) {
        NewRootConserved(m, tree, root, rootLie, neighbourLie);
      }
    }
  }

  lemma OldConservedAt<T>(m: Monoid<T>, tree: Tree<T>, root: DyadicInterval, rootLie: T, neighbourLie: T,
                          k: DyadicInterval)
    requires Linked(tree, root) && k in tree && ConservedAt(m, tree, k)
    requires Parent(root) !in tree && Sibling(root) !in tree
    ensures ConservedAt(m, WithRoot(tree, root, rootLie, neighbourLie), k)
  {
    NewAboveOnly(tree, root, k);
  }

  lemma NewRootConserved<T>(m: Monoid<T>, tree: Tree<T>, root: DyadicInterval, rootLie: T, neighbourLie: T)
    requires root in tree && Parent(root) !in tree && Sibling(root) !in tree
    requires rootLie == if root.Aligned() then m.mul(tree[root].lie, neighbourLie)
             else m.mul(neighbourLie, tree[root].lie)
    ensures ConservedAt(m, WithRoot(tree, root, rootLie, neighbourLie), Parent(root))
  {
    FamilyFacts(root);
  }

  // ----- when growing ends -----

  /** Enough halvings lead to 0 or to -1. */
  lemma {:induction false} UpEventually(k: int, j: nat)
    requires j >= if k < 0 then -k - 1 else k
    ensures Up(k, j) == if k < 0 then -1 else 0
    decreases j
  {
    if j > 0 {
      UpEventually(k / 2, j - 1);
    }
  }

  function StepsEnough(root: DyadicInterval, di: DyadicInterval): nat {
    Abs(root.multiplier) + Abs(di.multiplier) + Abs(root.power - di.power)
  }

  /** Growing the root reaches an interval exactly if it is on the root's side of zero: a query
      across zero would never return. */
  lemma GrowthEndsExactly(root: DyadicInterval, di: DyadicInterval)
    ensures SameSide(root.multiplier, di.multiplier) ==>
              DyadicInterval(Up(root.multiplier, StepsEnough(root, di)),
                             root.power - StepsEnough(root, di)).ContainsDyadic(di)
    ensures forall j: nat :: root.Expanded(j).ContainsDyadic(di) ==> SameSide(root.multiplier, di.multiplier)
  {
    var n := StepsEnough(root, di);
    var top := DyadicInterval(Up(root.multiplier, n), root.power - n);
    UpEventually(root.multiplier, n);
    UpEventually(di.multiplier, di.power - top.power);
    ContainsIsUp(top, di);
    forall j: nat | root.Expanded(j).ContainsDyadic(di)
      ensures SameSide(root.multiplier, di.multiplier)
    {
      ExpandedIs(root, j);
      ContainsIsUp(root.Expanded(j), di);
      UpKeepsSide(root.multiplier, j);
      UpKeepsSide(di.multiplier, di.power - root.Expanded(j).power);
    }
  }

  // ----- refining below a node -----

  /** Every second interval of power n from `from` up to x is in the tree. */
  ghost predicate EvensIn<T>(tree: Tree<T>, from: int, x: int, n: int) {
    forall y {:trigger DyadicInterval(y, n)} :: from <= y < x && y % 2 == 0 ==> DyadicInterval(y, n) in tree
  }

  lemma EvensStay<T>(before: Tree<T>, after: Tree<T>, from: int, x: int, n: int)
    requires EvensIn(before, from, x, n) && before.Keys <= after.Keys
    ensures EvensIn(after, from, x, n)
  {
  }

  lemma EvensStep<T>(tree: Tree<T>, from: int, x: int, n: int)
    requires EvensIn(tree, from, x, n) && x % 2 == 0 && DyadicInterval(x, n) in tree
    ensures EvensIn(tree, from, x + 2, n)
  {
    forall y | from <= y < x + 2 && y % 2 == 0
      ensures DyadicInterval(y, n) in tree
    {
      if y >= x {
        assert y == x;
      }
    }
  }

  /** With a node at every second place of power n below it, a node is accurate to n. */
  lemma {:induction false} EvensMakeAccurate<T>(tree: Tree<T>, root: DyadicInterval, inc: DyadicInterval,
                                                k: DyadicInterval, n: int)
    requires Linked(tree, root) && Accurate(tree) && k in tree && inc.ContainsDyadic(k) && inc in tree
    requires inc.power < n
    requires EvensIn(tree, Shift(inc.multiplier, n - inc.power), Shift(inc.multiplier + 1, n - inc.power), n)
    ensures tree[k].accuracy >= n
    decreases n - k.power
  {
    assert AccurateAt(tree, k);
    if k.power < n {
      BelowIsIn(tree, root, inc, k, n);
      HalvesTogether(tree, root, k);
      ChildFacts(k);
      ContainsTransitive(inc, k, k.LeftHalf());
      ContainsTransitive(inc, k, k.RightHalf());
      EvensMakeAccurate(tree, root, inc, k.LeftHalf(), n);
      EvensMakeAccurate(tree, root, inc, k.RightHalf(), n);
    }
  }

  /** The first interval of power n below k is at an even place, so it is in the tree, and so is
      everything between it and k. */
  lemma BelowIsIn<T>(tree: Tree<T>, root: DyadicInterval, inc: DyadicInterval, k: DyadicInterval, n: int)
    requires Linked(tree, root) && k in tree && inc.ContainsDyadic(k) && k.power < n
    requires EvensIn(tree, Shift(inc.multiplier, n - inc.power), Shift(inc.multiplier + 1, n - inc.power), n)
    ensures k.LeftHalf() in tree
  {
    hide Linked, EvensIn;
    FirstBelow(inc, k, n);
    var y := Shift(k.multiplier, n - k.power);
    EvenIn(tree, Shift(inc.multiplier, n - inc.power), Shift(inc.multiplier + 1, n - inc.power), n, y);
    ChildFacts(k);
    LinkedContains(tree, root, k);
    ContainsTransitive(root, k, k.LeftHalf());
    PathInTree(tree, root, k.LeftHalf(), DyadicInterval(y, n));
  }

  lemma LinkedContains<T>(tree: Tree<T>, root: DyadicInterval, k: DyadicInterval)
    requires Linked(tree, root) && k in tree
    ensures root.ContainsDyadic(k)
  {
  }

  lemma EvenIn<T>(tree: Tree<T>, from: int, x: int, n: int, y: int)
    requires EvensIn(tree, from, x, n) && from <= y < x && y % 2 == 0
    ensures DyadicInterval(y, n) in tree
  {
  }

  lemma FirstBelow(inc: DyadicInterval, k: DyadicInterval, n: int)
    requires inc.ContainsDyadic(k) && k.power < n
    ensures inc.power < n && Shift(k.multiplier, n - k.power) % 2 == 0
    ensures Shift(inc.multiplier, n - inc.power) <= Shift(k.multiplier, n - k.power)
    ensures Shift(k.multiplier, n - k.power) < Shift(inc.multiplier + 1, n - inc.power)
    ensures k.LeftHalf().ContainsDyadic(DyadicInterval(Shift(k.multiplier, n - k.power), n))
  {
    hide Shift, Pow2, DyadicInterval.ContainsDyadic;
    ContainsIsUp(inc, k);
    FirstIsHeld(k, n);
    var d := DyadicInterval(Shift(k.multiplier, n - k.power), n);
    ChildFacts(k);
    ContainsTransitive(k, k.LeftHalf(), d);
    ContainsTransitive(inc, k, d);
    ContainsIsUp(inc, d);
    UpWindow(d.multiplier, n - inc.power, inc.multiplier);
  }

  lemma FirstIsHeld(k: DyadicInterval, n: int)
    requires k.power < n
    ensures Shift(k.multiplier, n - k.power) % 2 == 0
    ensures k.LeftHalf().ContainsDyadic(DyadicInterval(Shift(k.multiplier, n - k.power), n))
  {
    hide Shift, Pow2;
    ShiftStep(k.multiplier, n - k.power - 1);
    UpShift(2 * k.multiplier, n - k.power - 1);
    ContainsIsUp(k.LeftHalf(), DyadicInterval(Shift(k.multiplier, n - k.power), n));
  }

  /** A place of power n between the ends of inc lies in inc. */
  lemma PlaceInside(inc: DyadicInterval, x: int, n: int)
    requires inc.power < n && Shift(inc.multiplier, n - inc.power) <= x < Shift(inc.multiplier + 1, n - inc.power)
    ensures inc.ContainsDyadic(DyadicInterval(x, n))
  {
    UpWindow(x, n - inc.power, inc.multiplier);
    ContainsIsUp(inc, DyadicInterval(x, n));
  }

  // ----- the steps as the stream takes them -----

  lemma SameShapeSelf<T>(tree: Tree<T>)
    ensures SameShape(tree, tree)
  {
  }

  lemma KeepsSelf<T>(tree: Tree<T>)
    ensures KeepsValues(tree, tree)
  {
  }

  lemma KeepsJoin<T>(a: Tree<T>, b: Tree<T>, c: Tree<T>)
    ensures KeepsValues(a, b) && KeepsValues(b, c) ==> KeepsValues(a, c)
    ensures SameShape(a, b) && SameShape(b, c) ==> SameShape(a, c)
    ensures a.Keys <= b.Keys && SameShape(b, c) ==> a.Keys <= c.Keys
  {
  }

  lemma FamilyIn<T>(tree: Tree<T>, root: DyadicInterval, k: DyadicInterval)
    requires Linked(tree, root) && k in tree && k != root
    ensures LinkedAt(tree, k)
    ensures k.power > root.power && Parent(k) in tree
    ensures Parent(k).LeftHalf() in tree && Parent(k).RightHalf() in tree
    ensures Min(tree[k].accuracy, tree[Sibling(k)].accuracy) == ChildAccuracy(tree, Parent(k))
  {
    FamilyFacts(k);
    HalfHolding(root, k);
  }

  lemma RaiseStep<T>(m: Monoid<T>, tree: Tree<T>, root: DyadicInterval, k: DyadicInterval, lie: T)
    requires Linked(tree, root) && AccurateBut(tree, Parent(k)) && LinkedAt(tree, k)
    requires Parent(k).LeftHalf() in tree && Parent(k).RightHalf() in tree
    requires ChildAccuracy(tree, Parent(k)) > tree[Parent(k)].accuracy
    requires lie == if k.Aligned() then m.mul(tree[k].lie, tree[Sibling(k)].lie)
                    else m.mul(tree[Sibling(k)].lie, tree[k].lie)
    ensures var tree' := Raised(tree, Parent(k), lie, ChildAccuracy(tree, Parent(k)));
            && Linked(tree', root) && SameShape(tree, tree') && AccurateBut(tree', Parent(Parent(k)))
            && (Conserved(m, tree) ==> Conserved(m, tree') && KeepsValues(tree, tree'))
  {
    var p := Parent(k);
    FamilyFacts(k);
    RaisedLinked(tree, root, p, lie, ChildAccuracy(tree, p));
    RaisedAccurate(tree, root, p, lie);
    if Conserved(m, tree) {
      RaisedConserved(m, tree, p, ChildAccuracy(tree, p));
    }
  }

  lemma SplitStep<T>(m: Monoid<T>, tree: Tree<T>, root: DyadicInterval, leaf: DyadicInterval, l: T, r: T)
    requires Linked(tree, root) && Accurate(tree) && IsLeaf(tree, leaf)
    ensures var tree' := WithChildren(tree, leaf, l, r);
            && Linked(tree', root) && AccurateBut(tree', leaf) && tree.Keys <= tree'.Keys
            && (m.mul(l, r) == tree[leaf].lie && Conserved(m, tree) ==> Conserved(m, tree') && KeepsValues(tree, tree'))
            && IsLeaf(tree', leaf.LeftHalf()) && IsLeaf(tree', leaf.RightHalf())
  {
    hide Linked, AccurateBut, Accurate, Conserved, KeepsValues;
    NewLeaves(tree, root, leaf, l, r);
    hide IsLeaf, WithChildren;
    WithChildrenLinked(tree, root, leaf, l, r);
    WithChildrenAccurate(tree, root, leaf, l, r);
    if m.mul(l, r) == tree[leaf].lie && Conserved(m, tree) {
      WithChildrenConserved(m, tree, root, leaf, l, r);
    }
  }

  lemma NewLeaves<T>(tree: Tree<T>, root: DyadicInterval, leaf: DyadicInterval, l: T, r: T)
    requires Linked(tree, root) && IsLeaf(tree, leaf)
    ensures leaf in tree && tree.Keys <= WithChildren(tree, leaf, l, r).Keys
    ensures IsLeaf(WithChildren(tree, leaf, l, r), leaf.LeftHalf())
    ensures IsLeaf(WithChildren(tree, leaf, l, r), leaf.RightHalf())
  {
    NothingBelowNew(tree, root, leaf);
    ChildFacts(leaf);
  }

  /** Both halves are there and offer more than the node above has. */
  ghost predicate Rises<T>(tree: Tree<T>, k: DyadicInterval) {
    && Parent(k) in tree && Parent(k).LeftHalf() in tree && Parent(k).RightHalf() in tree
    && ChildAccuracy(tree, Parent(k)) > tree[Parent(k)].accuracy
  }

  function HalvesProduct<T>(m: Monoid<T>, tree: Tree<T>, p: DyadicInterval): T
  {
    if p.LeftHalf() in tree && p.RightHalf() in tree then m.mul(tree[p.LeftHalf()].lie, tree[p.RightHalf()].lie)
        else m.one
  }

  lemma RisesMeans<T>(m: Monoid<T>, tree: Tree<T>, root: DyadicInterval, k: DyadicInterval)
    requires Linked(tree, root) && k in tree && k != root
    ensures LinkedAt(tree, k) && Parent(k).LeftHalf() in tree && Parent(k).RightHalf() in tree
    ensures Rises(tree, k) <==> Min(tree[k].accuracy, tree[Sibling(k)].accuracy) > tree[Parent(k)].accuracy
    ensures HalvesProduct(m, tree, Parent(k))
         == if k.Aligned() then m.mul(tree[k].lie, tree[Sibling(k)].lie) else m.mul(tree[Sibling(k)].lie, tree[k].lie)
  {
    FamilyFacts(k);
    FamilyIn(tree, root, k);
  }

  /** A leaf that has just been split is behind its halves. */
  lemma SplitRises<T>(m: Monoid<T>, tree: Tree<T>, root: DyadicInterval, leaf: DyadicInterval, l: T, r: T)
    requires Linked(tree, root) && Accurate(tree) && IsLeaf(tree, leaf)
    ensures var tree' := WithChildren(tree, leaf, l, r);
            && leaf.LeftHalf() != root && Parent(leaf.LeftHalf()) == leaf
            && Rises(tree', leaf.LeftHalf()) && HalvesProduct(m, tree', leaf) == m.mul(l, r)
  {
    ChildFacts(leaf);
    HalvesTogether(tree, root, leaf);
    assert AccurateAt(tree, leaf);
    RootIn(tree, root);
  }

  lemma StillLeaves<T>(a: Tree<T>, b: Tree<T>, left: DyadicInterval, right: DyadicInterval)
    requires SameShape(a, b)
    ensures IsLeaf(a, left) <==> IsLeaf(b, left)
    ensures IsLeaf(a, right) <==> IsLeaf(b, right)
  {
  }

  lemma GrowthStep<T>(m: Monoid<T>, tree: Tree<T>, root: DyadicInterval, rootLie: T, neighbourLie: T)
    requires Linked(tree, root) && Accurate(tree)
    ensures Parent(root) !in tree && Sibling(root) !in tree && Parent(root) != Sibling(root)
    ensures Sibling(root) == if root.Aligned() then Parent(root).RightHalf() else Parent(root).LeftHalf()
    ensures Linked(WithRoot(tree, root, rootLie, neighbourLie), Parent(root))
    ensures Accurate(WithRoot(tree, root, rootLie, neighbourLie))
    ensures Conserved(m, tree) && rootLie == (if root.Aligned() then m.mul(tree[root].lie, neighbourLie)
                                              else m.mul(neighbourLie, tree[root].lie)) ==>
              Conserved(m, WithRoot(tree, root, rootLie, neighbourLie))
                  && KeepsValues(tree, WithRoot(tree, root, rootLie, neighbourLie))
  {
    hide Linked, Accurate, Conserved, KeepsValues;
    GrowthFacts(tree, root);
    FamilyFacts(root);
    WithRootLinked(tree, root, rootLie, neighbourLie);
    WithRootAccurate(tree, root, rootLie, neighbourLie);
    RootIn(tree, root);
    if Conserved(m, tree) && rootLie == (if root.Aligned() then m.mul(tree[root].lie, neighbourLie)
                                         else m.mul(neighbourLie, tree[root].lie)) {
      WithRootConserved(m, tree, root, rootLie, neighbourLie);
    }
  }

  lemma RootIn<T>(tree: Tree<T>, root: DyadicInterval)
    requires Linked(tree, root)
    ensures root in tree && tree[root].parent == None && tree != map[]
  {
  }

  /** Setting the nodes first and the links afterwards comes to the same tree. */
  lemma WithRootInSteps<T>(tree: Tree<T>, root: DyadicInterval, rootLie: T, neighbourLie: T)
    requires root in tree && Parent(root) !in tree && Sibling(root) !in tree && Parent(root) != Sibling(root)
    ensures var sibling, parent := Sibling(root), Parent(root);
            var withSibling := tree[sibling := Node(neighbourLie, root.power, None, None)];
            var inserted := withSibling[parent := Node(rootLie, root.power, None, None)];
            && root in inserted && inserted[root] == tree[root]
            && var linked := inserted[root := inserted[root].(parent := Some(parent), sibling := Some(sibling))];
            && sibling in linked
            && linked[sibling := linked[sibling].(parent := Some(parent), sibling := Some(root))]
                 == WithRoot(tree, root, rootLie, neighbourLie)
  {
  }

  /** One of the intervals that growing from `start` goes through. */
  ghost predicate Ancestor(start: DyadicInterval, root: DyadicInterval) {
    root.power <= start.power && root.multiplier == Up(start.multiplier, start.power - root.power)
  }

  lemma NotYetThere(start: DyadicInterval, root: DyadicInterval, di: DyadicInterval)
    requires Ancestor(start, root) && SameSide(start.multiplier, di.multiplier) && !root.ContainsDyadic(di)
    ensures start.power - root.power < StepsEnough(start, di) && Ancestor(start, Parent(root))
  {
    var j := start.power - root.power;
    UpStep(start.multiplier, j);
    if j >= StepsEnough(start, di) {
      UpEventually(start.multiplier, j);
      UpEventually(di.multiplier, di.power - root.power);
      ContainsIsUp(root, di);
    }
  }

  lemma AccurateEverywhere<T>(tree: Tree<T>, x: DyadicInterval)
    requires Accurate(tree)
    ensures AccurateBut(tree, x)
  {
    if x in tree {
      assert AccurateAt(tree, x);
    }
  }

  lemma LessSamePower(a: DyadicInterval, b: DyadicInterval)
    requires a.power == b.power
    ensures Less(a, b) <==> a.multiplier < b.multiplier
  {
  }

  /** Where the refinement of a node starts and ends. */
  lemma RefineBounds(inc: DyadicInterval, n: int)
    requires inc.power < n
    ensures inc.ShrinkToContainedEnd(n - inc.power) == DyadicInterval(Shift(inc.multiplier, n - inc.power), n)
    ensures inc.Next().ShrinkToContainedEnd(n - inc.power)
            == DyadicInterval(Shift(inc.multiplier + 1, n - inc.power), n)
    ensures Shift(inc.multiplier, n - inc.power) % 2 == 0 && Shift(inc.multiplier + 1, n - inc.power) % 2 == 0
    ensures Shift(inc.multiplier, n - inc.power) <= Shift(inc.multiplier + 1, n - inc.power)
  {
    hide Shift, Pow2;
    ShiftStep(inc.multiplier, n - inc.power - 1);
    ShiftStep(inc.multiplier + 1, n - inc.power - 1);
    ShiftMono(inc.multiplier, inc.multiplier + 1, n - inc.power);
  }

  lemma FamilyRoot<T>(tree: Tree<T>, root: DyadicInterval, k: DyadicInterval)
    requires Linked(tree, root) && k in tree
    ensures root.ContainsDyadic(k) && SameSide(root.multiplier, k.multiplier)
  {
    LinkedContains(tree, root, k);
    ContainedOnSameSide(root, k);
  }

  lemma ContainedOnSameSide(outer: DyadicInterval, inner: DyadicInterval)
    requires outer.ContainsDyadic(inner)
    ensures SameSide(outer.multiplier, inner.multiplier)
  {
    ContainsIsUp(outer, inner);
    UpKeepsSide(inner.multiplier, inner.power - outer.power);
  }

  lemma SingleNode<T>(m: Monoid<T>, k: DyadicInterval, lie: T)
    ensures var tree: Tree<T> := map[k := Node(lie, k.power, None, None)];
            Linked(tree, k) && Accurate(tree) && Conserved(m, tree) && KeepsValues(map[], tree)
  {
    ContainsItself(k);
  }

  lemma RootKept<T>(before: Tree<T>, after: Tree<T>, root: DyadicInterval)
    requires before.Keys <= after.Keys && root in before
    ensures root in after
    ensures KeepsValues(before, after) ==> after[root].lie == before[root].lie
  {
  }

  /** The interval is not there yet, but the leaf that would have to be split for it is. */
  ghost predicate SplitsAbove<T>(tree: Tree<T>, interval: DyadicInterval) {
    interval !in tree && IsLeaf(tree, Parent(interval))
  }

  lemma SplitsBelowRoot<T>(tree: Tree<T>, root: DyadicInterval, interval: DyadicInterval)
    requires Linked(tree, root)
    ensures SplitsAbove(tree, interval) ==> root.ContainsDyadic(interval) && Parent(interval).ContainsDyadic(interval)
  {
    FamilyFacts(interval);
    ChildFacts(Parent(interval));
    if SplitsAbove(tree, interval) {
      LinkedContains(tree, root, Parent(interval));
      ContainsTransitive(root, Parent(interval), interval);
    }
  }

  /** There is only one leaf above an interval. */
  lemma OneLeafAbove<T>(tree: Tree<T>, root: DyadicInterval, leaf: DyadicInterval, interval: DyadicInterval)
    requires Linked(tree, root) && leaf in tree && leaf.ContainsDyadic(interval)
    requires (leaf == interval || IsLeaf(tree, leaf))
    ensures SplitsAbove(tree, interval) ==> leaf == Parent(interval) && interval.power == leaf.power + 1
  {
    SplitsBelowRoot(tree, root, interval);
    if SplitsAbove(tree, interval) {
      var other := Parent(interval);
      HalfHolding(leaf, interval);
      LeafHasNothingBelow(tree, root, leaf, other);
    }
  }

  lemma AccuracyAtLeast<T>(tree: Tree<T>, k: DyadicInterval)
    requires Accurate(tree) && k in tree
    ensures tree[k].accuracy >= k.power
  {
    assert AccurateAt(tree, k);
  }

  /** A node on the way to an interval that is not a leaf. */
  lemma InnerNode<T>(tree: Tree<T>, root: DyadicInterval, k: DyadicInterval, interval: DyadicInterval)
    requires Linked(tree, root) && k in tree && !IsLeaf(tree, k) && k.ContainsDyadic(interval) && k != interval
    ensures IsSuccessor(tree, k, k.LeftHalf())
    ensures forall s: DyadicInterval :: IsSuccessor(tree, k, s) ==> s == k.LeftHalf()
    ensures k.LeftHalf() in tree && k.RightHalf() in tree && tree[k.LeftHalf()].sibling == Some(k.RightHalf())
    ensures k.LeftHalf().ContainsDyadic(interval) || k.RightHalf().ContainsDyadic(interval)
    ensures k.power < interval.power
  {
    SuccessorIsLeft(tree, root, k);
    HalvesTogether(tree, root, k);
    NotTheRoot(tree, root, k, k.LeftHalf());
    ChildFacts(k);
    HalfHolding(k, interval);
  }

  lemma EvensNone<T>(tree: Tree<T>, from: int, n: int)
    ensures EvensIn(tree, from, from, n)
  {
  }
}
