/** A lazily grown tree as the end of a run: a first node, and then leaves that are split, nodes that
    are raised, and roots that are grown. */
module DynamicRuns {
  import opened Wrappers
  import opened DyadicIntervals
  import opened Monoids
  import opened DynamicTree
  import opened DynamicGrowth
  import opened DynamicHooks

  datatype State<T> = State(tree: Tree<T>, top: DyadicInterval)

  datatype Hooks<!T> = Hooks(m: Monoid<T>, newRoot: New<T>, newNeighbour: New<T>, split: Split<T>)

  ghost predicate First<T>(h: Hooks<T>, s: State<T>) {
    s.tree == map[s.top := Node(h.newRoot(s.top), s.top.power, None, None)]
  }

  ghost predicate SplitOf<T>(h: Hooks<T>, s: State<T>, s': State<T>, leaf: DyadicInterval) {
    && IsLeaf(s.tree, leaf)
    && var parts := h.split(leaf.LeftHalf(), leaf.RightHalf(), s.tree[leaf].lie);
       s' == State(WithChildren(s.tree, leaf, parts.0, parts.1), s.top)
  }

  ghost predicate RaiseOf<T>(h: Hooks<T>, s: State<T>, s': State<T>, p: DyadicInterval) {
    && p in s.tree && p.LeftHalf() in s.tree && p.RightHalf() in s.tree
    && ChildAccuracy(s.tree, p) > s.tree[p].accuracy
    && s' == State(Raised(s.tree, p, HalvesProduct(h.m, s.tree, p), ChildAccuracy(s.tree, p)), s.top)
  }

  ghost predicate GrowOf<T>(h: Hooks<T>, s: State<T>, s': State<T>) {
    && s.top in s.tree
    && s' == State(WithRoot(s.tree, s.top, h.newRoot(Parent(s.top)), h.newNeighbour(Sibling(s.top))), Parent(s.top))
  }

  ghost predicate Step<T>(h: Hooks<T>, s: State<T>, s': State<T>) {
    (exists leaf :: SplitOf(h, s, s', leaf)) || (exists p :: RaiseOf(h, s, s', p)) || GrowOf(h, s, s')
  }

  ghost predicate IsRun<T>(h: Hooks<T>, run: seq<State<T>>) {
    run != [] && First(h, run[0]) && forall i :: 0 <= i < |run| - 1 ==> Step(h, run[i], run[i + 1])
  }

  lemma StartRun<T>(h: Hooks<T>, s: State<T>)
    requires First(h, s)
    ensures IsRun(h, [s])
  {
  }

  lemma ExtendRun<T>(h: Hooks<T>, run: seq<State<T>>, s': State<T>)
    requires IsRun(h, run) && Step(h, run[|run| - 1], s')
    ensures IsRun(h, run + [s']) && run <= run + [s']
  {
    hide Step;
    var longer := run + [s'];
    forall i | 0 <= i < |longer| - 1
      ensures Step(h, longer[i], longer[i + 1])
    {
      assert longer[i] == run[i];
    }
  }

  lemma RaiseIsStep<T>(h: Hooks<T>, s: State<T>, p: DyadicInterval, lie: T, accuracy: int)
    requires p in s.tree && p.LeftHalf() in s.tree && p.RightHalf() in s.tree
    requires lie == HalvesProduct(h.m, s.tree, p) && accuracy == ChildAccuracy(s.tree, p)
    requires accuracy > s.tree[p].accuracy
    ensures Step(h, s, State(Raised(s.tree, p, lie, accuracy), s.top))
  {
    assert RaiseOf(h, s, State(Raised(s.tree, p, lie, accuracy), s.top), p);
  }

  lemma ExtendByRaise<T>(h: Hooks<T>, run: seq<State<T>>, s: State<T>, p: DyadicInterval, lie: T, accuracy: int)
    requires run != [] && IsRun(h, run) && run[|run| - 1] == s
    requires p in s.tree && p.LeftHalf() in s.tree && p.RightHalf() in s.tree
    requires lie == HalvesProduct(h.m, s.tree, p) && accuracy == ChildAccuracy(s.tree, p)
    requires accuracy > s.tree[p].accuracy
    ensures IsRun(h, run + [State(Raised(s.tree, p, lie, accuracy), s.top)])
  {
    hide Step, IsRun;
    RaiseIsStep(h, s, p, lie, accuracy);
    ExtendRun(h, run, State(Raised(s.tree, p, lie, accuracy), s.top));
  }

  lemma SplitIsStep<T>(h: Hooks<T>, s: State<T>, leaf: DyadicInterval)
    requires IsLeaf(s.tree, leaf)
    ensures var parts := h.split(leaf.LeftHalf(), leaf.RightHalf(), s.tree[leaf].lie);
            Step(h, s, State(WithChildren(s.tree, leaf, parts.0, parts.1), s.top))
  {
    var parts := h.split(leaf.LeftHalf(), leaf.RightHalf(), s.tree[leaf].lie);
    assert SplitOf(h, s, State(WithChildren(s.tree, leaf, parts.0, parts.1), s.top), leaf);
  }

  lemma GrowIsStep<T>(h: Hooks<T>, s: State<T>)
    requires s.top in s.tree
    ensures Step(h, s, State(WithRoot(s.tree, s.top, h.newRoot(Parent(s.top)), h.newNeighbour(Sibling(s.top))),
                             Parent(s.top)))
  {
  }

  lemma ExtendByGrowth<T>(h: Hooks<T>, run: seq<State<T>>, s: State<T>)
    requires run != [] && IsRun(h, run) && run[|run| - 1] == s && s.top in s.tree
    ensures var tree' := WithRoot(s.tree, s.top, h.newRoot(Parent(s.top)), h.newNeighbour(Sibling(s.top)));
            IsRun(h, run + [State(tree', Parent(s.top))])
  {
    hide Step, IsRun;
    GrowIsStep(h, s);
    var tree' := WithRoot(s.tree, s.top, h.newRoot(Parent(s.top)), h.newNeighbour(Sibling(s.top)));
    ExtendRun(h, run, State(tree', Parent(s.top)));
  }

  // ----- what runs of a function stream keep -----

  ghost function Asking<T>(m: Monoid<T>, f: New<T>): Hooks<T> {
    Hooks(m, f, f, AskAgain(f))
  }

  /** With an additive function a state of a run has the function's values, which fit together. */
  ghost predicate Sound<T(!new)>(m: Monoid<T>, f: New<T>, s: State<T>) {
    Linked(s.tree, s.top) && Conserved(m, s.tree) && AllHeld(Given(f), s.tree)
  }

  lemma FirstIsSound<T(!new)>(m: Monoid<T>, f: New<T>, s: State<T>)
    requires First(Asking(m, f), s)
    ensures Sound(m, f, s)
  {
    SingleNode(m, s.top, f(s.top));
  }

  lemma StepIsSound<T(!new)>(m: Monoid<T>, f: New<T>, s: State<T>, s': State<T>)
    requires Additive(m, f) && Sound(m, f, s) && Step(Asking(m, f), s, s')
    ensures Sound(m, f, s') && KeepsValues(s.tree, s'.tree)
  {
    var h := Asking(m, f);
    if leaf :| SplitOf(h, s, s', leaf) {
      SplitIsSound(m, f, s, s', leaf);
    } else if p :| RaiseOf(h, s, s', p) {
      RaiseIsSound(m, f, s, s', p);
    } else {
      GrowIsSound(m, f, s, s');
    }
  }

  lemma SplitIsSound<T(!new)>(m: Monoid<T>, f: New<T>, s: State<T>, s': State<T>, leaf: DyadicInterval)
    requires Additive(m, f) && Sound(m, f, s) && SplitOf(Asking(m, f), s, s', leaf)
    ensures Sound(m, f, s') && KeepsValues(s.tree, s'.tree)
  {
    assert AdditiveAt(m, f, leaf);
    WithChildrenLinked(s.tree, s.top, leaf, f(leaf.LeftHalf()), f(leaf.RightHalf()));
    WithChildrenConserved(m, s.tree, s.top, leaf, f(leaf.LeftHalf()), f(leaf.RightHalf()));
    hide Linked, Conserved, KeepsValues;
  }

  lemma RaiseIsSound<T(!new)>(m: Monoid<T>, f: New<T>, s: State<T>, s': State<T>, p: DyadicInterval)
    requires Sound(m, f, s) && RaiseOf(Asking(m, f), s, s', p)
    ensures Sound(m, f, s') && KeepsValues(s.tree, s'.tree)
  {
    RaisedLinked(s.tree, s.top, p, HalvesProduct(m, s.tree, p), ChildAccuracy(s.tree, p));
    RaisedConserved(m, s.tree, p, ChildAccuracy(s.tree, p));
    hide Linked, Conserved;
    HeldKept(Given(f), s.tree, s'.tree);
  }

  lemma GrowIsSound<T(!new)>(m: Monoid<T>, f: New<T>, s: State<T>, s': State<T>)
    requires Additive(m, f) && Sound(m, f, s) && GrowOf(Asking(m, f), s, s')
    ensures Sound(m, f, s') && KeepsValues(s.tree, s'.tree)
  {
    var root := s.top;
    RootValue(m, f, s);
    WithRootLinked(s.tree, root, f(Parent(root)), f(Sibling(root)));
    AskingIsExact(m, f);
    hide Linked, Conserved, KeepsValues, AllHeld, GrowthExact, Additive, WithRoot;
    WithRootConserved(m, s.tree, root, f(Parent(root)), f(Sibling(root)));
    HeldAfterGrowth(m, f, f, Given(f), s.tree, root);
  }

  lemma RootValue<T(!new)>(m: Monoid<T>, f: New<T>, s: State<T>)
    requires Additive(m, f) && Sound(m, f, s)
    ensures s.top in s.tree
    ensures f(Parent(s.top)) == if s.top.Aligned() then m.mul(s.tree[s.top].lie, f(Sibling(s.top)))
                                else m.mul(f(Sibling(s.top)), s.tree[s.top].lie)
  {
    assert AdditiveAt(m, f, Parent(s.top));
    FamilyFacts(s.top);
  }

  lemma {:induction false} RunKeepsValues<T(!new)>(m: Monoid<T>, f: New<T>, run: seq<State<T>>, i: nat, j: nat)
    requires Additive(m, f) && IsRun(Asking(m, f), run) && i <= j < |run|
    ensures Sound(m, f, run[j]) && KeepsValues(run[i].tree, run[j].tree)
    decreases j
  {
    hide Step, Sound, KeepsValues, Additive;
    KeepsSelf(run[j].tree);
    if j == 0 {
      FirstIsSound(m, f, run[0]);
    } else {
      RunKeepsValues(m, f, run, if i < j then i else 0, j - 1);
      assert Step(Asking(m, f), run[j - 1], run[j - 1 + 1]);
      StepIsSound(m, f, run[j - 1], run[j]);
      KeepsJoin(run[i].tree, run[j - 1].tree, run[j].tree);
    }
  }

  /** Over a whole run every value that is stored stays as it is. */
  ghost predicate ValuesStay<T>(run: seq<State<T>>) {
    forall i, j :: 0 <= i <= j < |run| ==> KeepsValues(run[i].tree, run[j].tree)
  }

  ghost predicate StaysInRun<T>(h: Hooks<T>, run: seq<State<T>>) {
    IsRun(h, run) ==> ValuesStay(run)
  }

  /** d, split and then raised. */
  ghost function SplitRun<T>(m: Monoid<T>, f: New<T>, d: DyadicInterval): seq<State<T>> {
    var first: Tree<T> := map[d := Node(f(d), d.power, None, None)];
    var split := WithChildren(first, d, f(d.LeftHalf()), f(d.RightHalf()));
    [State(first, d), State(split, d), State(Raised(split, d, m.mul(f(d.LeftHalf()), f(d.RightHalf())), d.power + 1),
                                             d)]
  }

  lemma SplitRunIsRun<T>(m: Monoid<T>, f: New<T>, d: DyadicInterval)
    ensures IsRun(Asking(m, f), SplitRun(m, f, d))
  {
    var run := SplitRun(m, f, d);
    ChildFacts(d);
    assert SplitOf(Asking(m, f), run[0], run[1], d);
    assert RaiseOf(Asking(m, f), run[1], run[2], d);
    forall i | 0 <= i < |run| - 1
      ensures Step(Asking(m, f), run[i], run[i + 1])
    {
      assert i == 0 || i == 1;
    }
  }

  /** No run of a function stream ever changes a stored value, exactly if the function is additive. */
  lemma ValuesStayExactly<T(!new)>(m: Monoid<T>, f: New<T>)
    ensures (forall run: seq<State<T>> :: StaysInRun(Asking(m, f), run)) <==> Additive(m, f)
  {
    if Additive(m, f) {
      forall run: seq<State<T>>
        ensures StaysInRun(Asking(m, f), run)
      {
        if IsRun(Asking(m, f), run) {
          forall i, j | 0 <= i <= j < |run|
            ensures KeepsValues(run[i].tree, run[j].tree)
          {
            RunKeepsValues(m, f, run, i, j);
          }
        }
      }
    }
    if forall run: seq<State<T>> :: StaysInRun(Asking(m, f), run) {
      forall d: DyadicInterval
        ensures AdditiveAt(m, f, d)
      {
        SplitRunChanges(m, f, d);
        assert StaysInRun(Asking(m, f), SplitRun(m, f, d));
      }
    }
  }

  lemma SplitRunChanges<T>(m: Monoid<T>, f: New<T>, d: DyadicInterval)
    ensures IsRun(Asking(m, f), SplitRun(m, f, d))
    ensures ValuesStay(SplitRun(m, f, d)) ==> AdditiveAt(m, f, d)
  {
    SplitRunIsRun(m, f, d);
    var run := SplitRun(m, f, d);
    if ValuesStay(run) {
      assert KeepsValues(run[0].tree, run[2].tree);
      assert d in run[0].tree;
    }
  }
}
