/** The lazily grown dyadic tree: its shape, its links, the accuracy and the value of a node. */
module DynamicTree {
  import opened Wrappers
  import opened Powers
  import opened Dyadics
  import opened DyadicIntervals

  datatype Node<T> = Node(lie: T, accuracy: int, parent: Option<DyadicInterval>, sibling: Option<DyadicInterval>)

  type Tree<T> = map<DyadicInterval, Node<T>>

  function Parent(d: DyadicInterval): DyadicInterval {
    DyadicInterval(d.multiplier / 2, d.power - 1)
  }

  function Sibling(d: DyadicInterval): DyadicInterval {
    if d.multiplier % 2 == 0 then DyadicInterval(d.multiplier + 1, d.power)
        else DyadicInterval(d.multiplier - 1, d.power)
  }

  function Min(a: int, b: int): int {
    if b < a then b else a
  }

  // ----- the invariant -----

  /** Every node but the root has its parent and its sibling in the tree and is linked to them. */
  ghost predicate LinkedAt<T>(tree: Tree<T>, k: DyadicInterval) {
    && k in tree && Parent(k) in tree && Sibling(k) in tree
    && tree[k].parent == Some(Parent(k)) && tree[k].sibling == Some(Sibling(k))
  }

  /** A full binary dyadic tree below its root. */
  ghost predicate Linked<T>(tree: Tree<T>, root: DyadicInterval) {
    && root in tree && tree[root].parent == None
    && forall k: DyadicInterval {:trigger k in tree} :: k in tree ==>
         root.ContainsDyadic(k) && (k != root ==> LinkedAt(tree, k))
  }

  predicate IsLeaf<T>(tree: Tree<T>, k: DyadicInterval) {
    k in tree && k.LeftHalf() !in tree
  }

  function ChildAccuracy<T>(tree: Tree<T>, k: DyadicInterval): int
    requires k.LeftHalf() in tree && k.RightHalf() in tree
  {
    Min(tree[k.LeftHalf()].accuracy, tree[k.RightHalf()].accuracy)
  }

  /** A leaf is accurate to its own power, any other node to the lesser accuracy of its halves. */
  ghost predicate AccurateAt<T>(tree: Tree<T>, k: DyadicInterval)
    requires k in tree
  {
    && tree[k].accuracy >= k.power
    && if k.LeftHalf() in tree then k.RightHalf() in tree && tree[k].accuracy == ChildAccuracy(tree, k)
       else tree[k].accuracy == k.power
  }

  /** No node claims more than its halves can give. */
  ghost predicate ModestAt<T>(tree: Tree<T>, k: DyadicInterval)
    requires k in tree
  {
    && tree[k].accuracy >= k.power
    && (k.LeftHalf() in tree ==> k.RightHalf() in tree && tree[k].accuracy <= ChildAccuracy(tree, k))
  }

  ghost predicate Accurate<T>(tree: Tree<T>) {
    forall k: DyadicInterval :: k in tree ==> AccurateAt(tree, k)
  }

  ghost predicate AccurateBut<T>(tree: Tree<T>, x: DyadicInterval) {
    && (forall k: DyadicInterval :: k in tree && k != x ==> AccurateAt(tree, k))
    && (x in tree ==> ModestAt(tree, x))
  }

  /** Same nodes and links; only values and accuracies may differ. */
  ghost predicate SameShape<T>(a: Tree<T>, b: Tree<T>) {
    a.Keys == b.Keys && forall k: DyadicInterval :: k in a ==>
        a[k].parent == b[k].parent && a[k].sibling == b[k].sibling
  }

  // ----- neighbours in the tree -----

  lemma FamilyFacts(d: DyadicInterval)
    ensures Parent(d) == d.Expanded() && Sibling(d) == d.Flipped()
    ensures d.Aligned() <==> d == Parent(d).LeftHalf()
    ensures !d.Aligned() <==> d == Parent(d).RightHalf()
    ensures d.Aligned() ==> Sibling(d) == Parent(d).RightHalf()
    ensures !d.Aligned() ==> Sibling(d) == Parent(d).LeftHalf()
  {
    ParentIs(d);
    AlignedIsEven(d);
    CRemZero(d.multiplier, 2);
  }

  lemma ChildFacts(k: DyadicInterval)
    ensures Parent(k.LeftHalf()) == k && Parent(k.RightHalf()) == k
    ensures Sibling(k.LeftHalf()) == k.RightHalf() && Sibling(k.RightHalf()) == k.LeftHalf()
    ensures k.ContainsDyadic(k.LeftHalf()) && k.ContainsDyadic(k.RightHalf()) && k.ContainsDyadic(k)
    ensures !k.LeftHalf().ContainsDyadic(k) && !k.RightHalf().ContainsDyadic(k)
  {
    ContainsIsUp(k, k.LeftHalf());
    ContainsIsUp(k, k.RightHalf());
    ContainsIsUp(k, k);
    ContainsIsUp(k.LeftHalf(), k);
    ContainsIsUp(k.RightHalf(), k);
    assert Up(2 * k.multiplier, 1) == Up(k.multiplier, 0) && Up(2 * k.multiplier + 1, 1) == Up(k.multiplier, 0);
  }

  lemma HalfHolding(p: DyadicInterval, d: DyadicInterval)
    requires p.ContainsDyadic(d) && d != p
    ensures d.power > p.power
    ensures p.LeftHalf().ContainsDyadic(d) || p.RightHalf().ContainsDyadic(d)
    ensures p.ContainsDyadic(Parent(d))
  {
    ContainsIsUp(p, d);
    var j := d.power - p.power;
    assert Up(d.multiplier, 0) == d.multiplier;
    UpStep(d.multiplier, j - 1);
    ContainsIsUp(p.LeftHalf(), d);
    ContainsIsUp(p.RightHalf(), d);
    ContainsIsUp(p, Parent(d));
  }

  /** Both halves of a node are in the tree or neither is. */
  lemma HalvesTogether<T>(tree: Tree<T>, root: DyadicInterval, k: DyadicInterval)
    requires Linked(tree, root) && k in tree
    ensures k.LeftHalf() in tree <==> k.RightHalf() in tree
  {
    ChildFacts(k);
    if k.LeftHalf() in tree {
      NotTheRoot(tree, root, k, k.LeftHalf());
    }
    if k.RightHalf() in tree {
      NotTheRoot(tree, root, k, k.RightHalf());
    }
  }

  lemma NotTheRoot<T>(tree: Tree<T>, root: DyadicInterval, k: DyadicInterval, half: DyadicInterval)
    requires Linked(tree, root) && k in tree && half in tree
    requires half == k.LeftHalf() || half == k.RightHalf()
    ensures half != root && LinkedAt(tree, half)
  {
    ChildFacts(k);
  }

  /** Everything between the root and a node is in the tree. */
  lemma {:induction false} PathInTree<T>(tree: Tree<T>, root: DyadicInterval, k: DyadicInterval, d: DyadicInterval)
    requires Linked(tree, root) && d in tree && k.ContainsDyadic(d) && root.ContainsDyadic(k)
    ensures k in tree
    decreases d.power - k.power
  {
    if d != k {
      HalfHolding(k, d);
      ContainsIsUp(root, k);
      assert d != root;
      assert LinkedAt(tree, d);
      ContainsIsUp(k, Parent(d));
      PathInTree(tree, root, k, Parent(d));
    }
  }

  /** A leaf has nothing of the tree below it. */
  lemma LeafHasNothingBelow<T>(tree: Tree<T>, root: DyadicInterval, leaf: DyadicInterval, d: DyadicInterval)
    requires Linked(tree, root) && IsLeaf(tree, leaf) && d in tree && leaf.ContainsDyadic(d)
    ensures d == leaf
  {
    if d != leaf {
      HalfHolding(leaf, d);
      ChildFacts(leaf);
      HalvesTogether(tree, root, leaf);
      if leaf.LeftHalf().ContainsDyadic(d) {
        ContainsTransitive(root, leaf, leaf.LeftHalf());
        PathInTree(tree, root, leaf.LeftHalf(), d);
      } else {
        ContainsTransitive(root, leaf, leaf.RightHalf());
        PathInTree(tree, root, leaf.RightHalf(), d);
      }
    }
  }

  /** The code's test for a leaf. */
  lemma LeafTest<T>(tree: Tree<T>, root: DyadicInterval, k: DyadicInterval)
    requires Linked(tree, root) && Accurate(tree) && k in tree
    ensures tree[k].accuracy == k.power <==> IsLeaf(tree, k)
  {
    HalvesTogether(tree, root, k);
    assert AccurateAt(tree, k);
    if k.LeftHalf() in tree {
      assert AccurateAt(tree, k.LeftHalf()) && AccurateAt(tree, k.RightHalf());
    }
  }

  // ----- the map order walks the tree -----

  predicate IsFirst<T>(tree: Tree<T>, k: DyadicInterval) {
    k in tree && forall j: DyadicInterval :: j in tree ==> j == k || Less(k, j)
  }

  predicate IsSuccessor<T>(tree: Tree<T>, k: DyadicInterval, s: DyadicInterval) {
    s in tree && Less(k, s) && forall j: DyadicInterval :: j in tree && Less(k, j) ==> j == s || Less(s, j)
  }

  predicate IsPredecessor<T>(tree: Tree<T>, x: DyadicInterval, s: DyadicInterval) {
    s in tree && Less(s, x) && forall j: DyadicInterval :: j in tree && Less(j, x) ==> j == s || Less(j, s)
  }

  lemma AboveIsLess(a: DyadicInterval, b: DyadicInterval)
    requires a.ContainsDyadic(b) && a != b
    ensures Less(a, b) && !Less(b, a)
  {
    ContainsIsInclusion(a, b);
    ContainsIsUp(a, b);
    LessIsLexicographic(a, b);
    LessIsLexicographic(b, a);
    assert Up(b.multiplier, 0) == b.multiplier;
  }

  lemma FirstIsUnique<T>(tree: Tree<T>, a: DyadicInterval, b: DyadicInterval)
    requires IsFirst(tree, a) && IsFirst(tree, b)
    ensures a == b
  {
    LessIsStrictTotal(a, b, a);
  }

  /** begin() is the root. */
  lemma RootIsFirst<T>(tree: Tree<T>, root: DyadicInterval)
    requires Linked(tree, root)
    ensures IsFirst(tree, root)
  {
    forall j: DyadicInterval | j in tree
      ensures j == root || Less(root, j)
    {
      if j != root {
        AboveIsLess(root, j);
      }
    }
  }

  /** ++ on a node that is not a leaf goes to its left half. */
  lemma SuccessorIsLeft<T>(tree: Tree<T>, root: DyadicInterval, k: DyadicInterval)
    requires Linked(tree, root) && k in tree && k.LeftHalf() in tree
    ensures IsSuccessor(tree, k, k.LeftHalf())
    ensures forall s: DyadicInterval :: IsSuccessor(tree, k, s) ==> s == k.LeftHalf()
  {
    var left := k.LeftHalf();
    ChildFacts(k);
    AboveIsLess(k, left);
    forall j: DyadicInterval | j in tree && Less(k, j)
      ensures j == left || Less(left, j)
    {
      NextAfterLeft(k, j);
    }
    forall s: DyadicInterval | IsSuccessor(tree, k, s)
      ensures s == left
    {
      LessIsStrictTotal(s, left, s);
    }
  }

  lemma NextAfterLeft(k: DyadicInterval, j: DyadicInterval)
    requires Less(k, j)
    ensures j == k.LeftHalf() || Less(k.LeftHalf(), j)
  {
    var left := k.LeftHalf();
    ChildFacts(k);
    LessIsStrictTotal(k, j, k);
    if k.ContainsDyadic(j) {
      HalfHolding(k, j);
      if left.ContainsDyadic(j) {
        if j != left {
          AboveIsLess(left, j);
        }
      } else {
        RightAfterLeft(k, j);
      }
    } else if j.ContainsDyadic(k) {
      AboveIsLess(j, k);
    } else {
      LessIsPreorder(k, left, j);
    }
  }

  lemma RightAfterLeft(k: DyadicInterval, j: DyadicInterval)
    requires k.RightHalf().ContainsDyadic(j)
    ensures Less(k.LeftHalf(), j)
  {
    ContainsIsInclusion(k.RightHalf(), j);
    RealOrderAtPower(2 * k.multiplier, 2 * k.multiplier + 1, k.power + 1);
    LessIsLexicographic(k.LeftHalf(), j);
  }

  /** -- from where a missing interval would be goes to the leaf above it. */
  lemma PredecessorIsLeafAbove<T>(tree: Tree<T>, root: DyadicInterval, leaf: DyadicInterval, x: DyadicInterval)
    requires Linked(tree, root) && IsLeaf(tree, leaf) && leaf.ContainsDyadic(x) && x !in tree
    ensures IsPredecessor(tree, x, leaf)
    ensures forall s: DyadicInterval :: IsPredecessor(tree, x, s) ==> s == leaf
  {
    AboveIsLess(leaf, x);
    forall j: DyadicInterval | j in tree && Less(j, x)
      ensures j == leaf || Less(j, leaf)
    {
      if j.ContainsDyadic(leaf) {
        if j != leaf {
          AboveIsLess(j, leaf);
        }
      } else if leaf.ContainsDyadic(j) {
        LeafHasNothingBelow(tree, root, leaf, j);
      } else {
        LessIsPreorder(leaf, x, j);
      }
    }
    forall s: DyadicInterval | IsPredecessor(tree, x, s)
      ensures s == leaf
    {
      LessIsStrictTotal(s, leaf, s);
    }
  }

  /** Below a node of the tree every interval lies under a leaf, if it is not in the tree itself. */
  lemma {:induction false} LeafAbove<T>(tree: Tree<T>, root: DyadicInterval, k: DyadicInterval, x: DyadicInterval)
    returns (leaf: DyadicInterval)
    requires Linked(tree, root) && k in tree && k.ContainsDyadic(x) && x !in tree
    ensures IsLeaf(tree, leaf) && k.ContainsDyadic(leaf) && leaf.ContainsDyadic(x) && leaf != x
    decreases x.power - k.power
  {
    ChildFacts(k);
    if IsLeaf(tree, k) {
      leaf := k;
    } else {
      HalfHolding(k, x);
      HalvesTogether(tree, root, k);
      var half := if k.LeftHalf().ContainsDyadic(x) then k.LeftHalf() else k.RightHalf();
      ContainsIsUp(half, x);
      leaf := LeafAbove(tree, root, half, x);
      ContainsTransitive(k, half, leaf);
    }
  }
}
