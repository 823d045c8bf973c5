/** What a lazily grown tree keeps for any hooks at all: a node whose halves are equally accurate is
    their product. */
module DynamicBalance {
  import opened DyadicIntervals
  import opened Monoids
  import opened DynamicTree
  import opened DynamicGrowth
  import opened DynamicValues
  import opened Timeline

  /** A root made by growing is only the product of its halves once it has become more accurate. */
  ghost predicate BalancedAt<T>(m: Monoid<T>, tree: Tree<T>, grown: set<DyadicInterval>, k: DyadicInterval)
    requires k in tree
  {
    && k.LeftHalf() in tree && k.RightHalf() in tree
    && tree[k.LeftHalf()].accuracy == tree[k.RightHalf()].accuracy
    && (k in grown ==> tree[k].accuracy > k.power + 1)
    ==> tree[k].lie == HalvesProduct(m, tree, k)
  }

  ghost predicate Balanced<T>(m: Monoid<T>, tree: Tree<T>, grown: set<DyadicInterval>) {
    forall k: DyadicInterval :: k in tree ==> BalancedAt(m, tree, grown, k)
  }

  ghost predicate BalancedBut<T>(m: Monoid<T>, tree: Tree<T>, grown: set<DyadicInterval>, x: DyadicInterval) {
    forall k: DyadicInterval :: k in tree && k != x ==> BalancedAt(m, tree, grown, k)
  }

  /** The parent is balanced, or else less accurate than this node. */
  ghost predicate Leads<T>(m: Monoid<T>, tree: Tree<T>, grown: set<DyadicInterval>, k: DyadicInterval)
    requires k in tree
  {
    Parent(k) in tree ==> BalancedAt(m, tree, grown, Parent(k)) || tree[Parent(k)].accuracy < tree[k].accuracy
  }

  lemma SingleBalanced<T>(m: Monoid<T>, k: DyadicInterval, node: Node<T>)
    ensures Balanced(m, map[k := node], {})
  {
  }

  lemma BalancedEverywhere<T>(m: Monoid<T>, tree: Tree<T>, grown: set<DyadicInterval>, k: DyadicInterval)
    requires Balanced(m, tree, grown) && k in tree
    ensures BalancedBut(m, tree, grown, Parent(k)) && Leads(m, tree, grown, k)
  {
  }

  lemma BalancedOutside<T>(m: Monoid<T>, tree: Tree<T>, grown: set<DyadicInterval>, x: DyadicInterval)
    requires BalancedBut(m, tree, grown, x) && x !in tree
    ensures Balanced(m, tree, grown)
  {
  }

  lemma SplitBalanced<T>(m: Monoid<T>, tree: Tree<T>, root: DyadicInterval, grown: set<DyadicInterval>,
                         leaf: DyadicInterval, l: T, r: T)
    requires Linked(tree, root) && Accurate(tree) && Balanced(m, tree, grown) && IsLeaf(tree, leaf)
    ensures var tree' := WithChildren(tree, leaf, l, r);
            && BalancedBut(m, tree', grown, Parent(leaf.LeftHalf()))
            && leaf.LeftHalf() in tree' && Leads(m, tree', grown, leaf.LeftHalf())
  {
    var tree' := WithChildren(tree, leaf, l, r);
    ChildFacts(leaf);
    HalvesTogether(tree, root, leaf);
    NothingBelowNew(tree, root, leaf);
    assert AccurateAt(tree, leaf);
    forall k: DyadicInterval | k in tree' && k != leaf
      ensures BalancedAt(m, tree', grown, k)
    {
      ChildFacts(k);
      if k in tree {
        assert BalancedAt(m, tree, grown, k);
        assert k.LeftHalf() != leaf.LeftHalf() && k.RightHalf() != leaf.RightHalf();
      }
    }
  }

  /** Raising a node that is behind makes it balanced; its own parent can now be behind. */
  lemma RaiseBalanced<T>(m: Monoid<T>, tree: Tree<T>, grown: set<DyadicInterval>, p: DyadicInterval, lie: T)
    requires p in tree && p.LeftHalf() in tree && p.RightHalf() in tree && lie == HalvesProduct(m, tree, p)
    requires AccurateBut(tree, p) && BalancedBut(m, tree, grown, p) && tree[p].accuracy < ChildAccuracy(tree, p)
    ensures var tree' := Raised(tree, p, lie, ChildAccuracy(tree, p));
            BalancedBut(m, tree', grown, Parent(p)) && Leads(m, tree', grown, p)
  {
    var tree' := Raised(tree, p, lie, ChildAccuracy(tree, p));
    ChildFacts(p);
    forall k: DyadicInterval | k in tree' && k != Parent(p)
      ensures BalancedAt(m, tree', grown, k)
    {
      RaiseKeepsOther(m, tree, grown, p, lie, ChildAccuracy(tree, p), k);
    }
    if Parent(p) in tree {
      ParentNotAhead(tree, p);
    }
  }

  lemma RaiseKeepsOther<T>(m: Monoid<T>, tree: Tree<T>, grown: set<DyadicInterval>, p: DyadicInterval, lie: T,
                           accuracy: int,
                           k: DyadicInterval)
    requires p in tree && p.LeftHalf() in tree && p.RightHalf() in tree && lie == HalvesProduct(m, tree, p)
    requires k in tree && k != Parent(p) && (k != p ==> BalancedAt(m, tree, grown, k))
    ensures BalancedAt(m, Raised(tree, p, lie, accuracy), grown, k)
  {
    ChildFacts(k);
    ChildFacts(p);
    assert k.LeftHalf() != p && k.RightHalf() != p;
  }

  lemma ParentNotAhead<T>(tree: Tree<T>, p: DyadicInterval)
    requires p in tree && Parent(p) in tree && AccurateBut(tree, p)
    ensures tree[Parent(p)].accuracy <= tree[p].accuracy
  {
    FamilyFacts(p);
    assert Parent(p) != p;
    assert AccurateAt(tree, Parent(p));
  }

  /** Where nothing improves any more the parent is balanced. */
  lemma StopBalanced<T>(m: Monoid<T>, tree: Tree<T>, root: DyadicInterval, grown: set<DyadicInterval>,
                        k: DyadicInterval)
    requires Linked(tree, root) && k in tree && k != root
    requires BalancedBut(m, tree, grown, Parent(k)) && Leads(m, tree, grown, k)
    requires LinkedAt(tree, k) && Min(tree[k].accuracy, tree[Sibling(k)].accuracy) <= tree[Parent(k)].accuracy
    ensures Balanced(m, tree, grown)
  {
    FamilyFacts(k);
    assert BalancedAt(m, tree, grown, Parent(k));
  }

  lemma GrowBalanced<T>(m: Monoid<T>, tree: Tree<T>, root: DyadicInterval, grown: set<DyadicInterval>, rootLie: T,
                        neighbourLie: T)
    requires Linked(tree, root) && Balanced(m, tree, grown)
    ensures Balanced(m, WithRoot(tree, root, rootLie, neighbourLie), grown + {Parent(root)})
  {
    var tree' := WithRoot(tree, root, rootLie, neighbourLie);
    GrowthFacts(tree, root);
    forall k: DyadicInterval | k in tree'
      ensures BalancedAt(m, tree', grown + {Parent(root)}, k)
    {
      if k in tree {
        NewAboveOnly(tree, root, k);
        assert BalancedAt(m, tree, grown, k);
      }
    }
  }

  // ----- what this means where all leaves have one power -----

  ghost predicate LeavesAt<T>(tree: Tree<T>, k: DyadicInterval, n: int) {
    forall leaf: DyadicInterval :: IsLeaf(tree, leaf) && k.ContainsDyadic(leaf) ==> leaf.power == n
  }

  /** No root that was made by growing lies just above the leaves below k, where it may never have
      been recomputed. */
  ghost predicate NoneJustAbove(grown: set<DyadicInterval>, k: DyadicInterval, n: int) {
    forall g: DyadicInterval :: g in grown && k.ContainsDyadic(g) ==> g.power != n - 1
  }

  lemma HalfOfUniform<T>(tree: Tree<T>, root: DyadicInterval, grown: set<DyadicInterval>, k: DyadicInterval,
                         half: DyadicInterval, n: int)
    requires Linked(tree, root) && Accurate(tree) && half in tree && k.ContainsDyadic(half)
    requires LeavesAt(tree, k, n) && NoneJustAbove(grown, k, n)
    ensures LeavesAt(tree, half, n) && NoneJustAbove(grown, half, n) && tree[half].accuracy == n
  {
    forall d: DyadicInterval | half.ContainsDyadic(d)
      ensures k.ContainsDyadic(d)
    {
      ContainsTransitive(k, half, d);
    }
    var least := AccuracyIsLeastLeafPower(tree, root, half);
  }

  /** Whatever the hooks are: where all leaves below a node have the same power, the node is the
      ordered product of its leaves. */
  lemma {:induction false} UniformIsProduct<T(!new)>(m: Monoid<T>, tree: Tree<T>, root: DyadicInterval,
                                                     grown: set<DyadicInterval>, k: DyadicInterval, n: int)
    requires Lawful(m) && Linked(tree, root) && Accurate(tree) && Balanced(m, tree, grown) && k in tree
    requires LeavesAt(tree, k, n) && NoneJustAbove(grown, k, n)
    ensures Product(m, Values(Leaves(tree, k))) == tree[k].lie
    decreases Finest(tree) - k.power
  {
    hide Finest, Lawful, Linked, Accurate, Product, LeavesAt, NoneJustAbove;
    if k.LeftHalf() in tree && k.RightHalf() in tree {
      UniformSplits(m, tree, root, grown, k, n);
      hide Balanced;
      UniformIsProduct(m, tree, root, grown, k.LeftHalf(), n);
      UniformIsProduct(m, tree, root, grown, k.RightHalf(), n);
      var a, b := Leaves(tree, k.LeftHalf()), Leaves(tree, k.RightHalf());
      assert Values(a + b) == Values(a) + Values(b);
      ProductConcat(m, Values(a), Values(b));
    } else {
      ProductOne(m, tree[k].lie);
      assert Values(Leaves(tree, k)) == [tree[k].lie];
    }
  }

  lemma UniformSplits<T>(m: Monoid<T>, tree: Tree<T>, root: DyadicInterval, grown: set<DyadicInterval>,
                         k: DyadicInterval, n: int)
    requires Linked(tree, root) && Accurate(tree) && Balanced(m, tree, grown) && k in tree
    requires LeavesAt(tree, k, n) && NoneJustAbove(grown, k, n)
    requires k.LeftHalf() in tree && k.RightHalf() in tree
    ensures LeavesAt(tree, k.LeftHalf(), n) && NoneJustAbove(grown, k.LeftHalf(), n)
    ensures LeavesAt(tree, k.RightHalf(), n) && NoneJustAbove(grown, k.RightHalf(), n)
    ensures tree[k].lie == m.mul(tree[k.LeftHalf()].lie, tree[k.RightHalf()].lie) && k.power < n
  {
    hide Linked, LeavesAt, Accurate;
    ChildFacts(k);
    ContainsItself(k);
    HalfOfUniform(tree, root, grown, k, k, n);
    HalfOfUniform(tree, root, grown, k, k.LeftHalf(), n);
    HalfOfUniform(tree, root, grown, k, k.RightHalf(), n);
    AccuracyAtLeast(tree, k.LeftHalf());
    assert BalancedAt(m, tree, grown, k);
  }
}
