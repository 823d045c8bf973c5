/** What a lazily grown stream asks of its hooks: the values for a new root, for its neighbours and
    for the two halves of a leaf. */
module DynamicHooks {
  import opened Wrappers
  import opened DyadicIntervals
  import opened Dissection
  import opened Monoids
  import opened DynamicTree
  import opened DynamicGrowth
  import opened DynamicValues

  type New<!T> = DyadicInterval -> T
  type Split<!T> = (DyadicInterval, DyadicInterval, T) -> (T, T)

  /** Which values an interval may have in the stream. */
  type Held<!T> = (DyadicInterval, T) -> bool

  /** The parts of a value of d multiply back to it, and are values that its halves may have. */
  ghost predicate SplitExactAt<T>(m: Monoid<T>, split: Split<T>, held: Held<T>, d: DyadicInterval, v: T) {
    held(d, v) ==>
      var parts := split(d.LeftHalf(), d.RightHalf(), v);
      m.mul(parts.0, parts.1) == v && held(d.LeftHalf(), parts.0) && held(d.RightHalf(), parts.1)
  }

  ghost predicate SplitExact<T(!new)>(m: Monoid<T>, split: Split<T>, held: Held<T>) {
    forall d: DyadicInterval, v: T :: SplitExactAt(m, split, held, d, v)
  }

  /** A new root's value is the ordered product of the old root's and the neighbour's. */
  ghost predicate GrowthExactAt<T>(m: Monoid<T>, newRoot: New<T>, newNeighbour: New<T>, held: Held<T>,
                                   d: DyadicInterval) {
    && newRoot(d) == m.mul(newRoot(d.LeftHalf()), newNeighbour(d.RightHalf()))
    && newRoot(d) == m.mul(newNeighbour(d.LeftHalf()), newRoot(d.RightHalf()))
    && held(d, newRoot(d)) && held(d, newNeighbour(d))
  }

  ghost predicate GrowthExact<T>(m: Monoid<T>, newRoot: New<T>, newNeighbour: New<T>, held: Held<T>) {
    forall d: DyadicInterval :: GrowthExactAt(m, newRoot, newNeighbour, held, d)
  }

  /** What a leaf with value v becomes when it is split. */
  function SplitProduct<T>(m: Monoid<T>, split: Split<T>, d: DyadicInterval, v: T): T {
    var parts := split(d.LeftHalf(), d.RightHalf(), v);
    m.mul(parts.0, parts.1)
  }

  ghost predicate AllHeld<T>(held: Held<T>, tree: Tree<T>) {
    forall k: DyadicInterval :: k in tree ==> held(k, tree[k].lie)
  }

  /** Every node is the product of its halves, and has a value that it may have. */
  ghost predicate Conserving<T>(m: Monoid<T>, held: Held<T>, tree: Tree<T>) {
    Conserved(m, tree) && AllHeld(held, tree)
  }

  lemma SplitInstance<T(!new)>(m: Monoid<T>, split: Split<T>, held: Held<T>, tree: Tree<T>, d: DyadicInterval)
    requires SplitExact(m, split, held) && AllHeld(held, tree) && d in tree
    ensures var parts := split(d.LeftHalf(), d.RightHalf(), tree[d].lie);
            m.mul(parts.0, parts.1) == tree[d].lie && AllHeld(held, WithChildren(tree, d, parts.0, parts.1))
  {
    assert SplitExactAt(m, split, held, d, tree[d].lie);
  }

  lemma GrowthInstance<T(!new)>(m: Monoid<T>, newRoot: New<T>, newNeighbour: New<T>, held: Held<T>, d: DyadicInterval)
    requires GrowthExact(m, newRoot, newNeighbour, held)
    ensures newRoot(d) == m.mul(newRoot(d.LeftHalf()), newNeighbour(d.RightHalf()))
    ensures newRoot(d) == m.mul(newNeighbour(d.LeftHalf()), newRoot(d.RightHalf()))
    ensures held(d, newRoot(d)) && held(d, newNeighbour(d))
  {
    assert GrowthExactAt(m, newRoot, newNeighbour, held, d);
  }

  lemma HeldAfterGrowth<T(!new)>(m: Monoid<T>, newRoot: New<T>, newNeighbour: New<T>, held: Held<T>, tree: Tree<T>,
                                 root: DyadicInterval)
    requires GrowthExact(m, newRoot, newNeighbour, held) && AllHeld(held, tree) && root in tree
    ensures AllHeld(held, WithRoot(tree, root, newRoot(Parent(root)), newNeighbour(Sibling(root))))
  {
    GrowthInstance(m, newRoot, newNeighbour, held, Parent(root));
    GrowthInstance(m, newRoot, newNeighbour, held, Sibling(root));
  }

  lemma HeldKept<T>(held: Held<T>, before: Tree<T>, after: Tree<T>)
    requires AllHeld(held, before) && KeepsValues(before, after) && SameShape(before, after)
    ensures AllHeld(held, after)
  {
  }

  lemma HeldAtFirst<T>(m: Monoid<T>, newRoot: New<T>, newNeighbour: New<T>, held: Held<T>, k: DyadicInterval)
    requires GrowthExact(m, newRoot, newNeighbour, held)
    ensures AllHeld(held, map[k := Node(newRoot(k), k.power, None, None)])
  {
    assert GrowthExactAt(m, newRoot, newNeighbour, held, k);
  }

  // ----- the hooks of the stream itself -----

  /** Any value at all. */
  ghost function Anything<T>(): Held<T> {
    (d: DyadicInterval, v: T) => true
  }

  /** `compute_child_lie_increments`: half the value for each half. */
  function Halving<T>(half: T -> T): Split<T> {
    (l: DyadicInterval, r: DyadicInterval, v: T) => (half(v), half(v))
  }

  lemma HalvingIsExact<T(!new)>(m: Monoid<T>, half: T -> T)
    ensures SplitExact(m, Halving(half), Anything()) <==> forall v :: m.mul(half(v), half(v)) == v
  {
    if SplitExact(m, Halving(half), Anything()) {
      forall v: T
        ensures m.mul(half(v), half(v)) == v
      {
        assert SplitExactAt(m, Halving(half), Anything(), DyadicInterval(0, 0), v);
      }
    }
  }

  /** Multiples of one value multiply as their factors add: the law of the product on a line. */
  ghost predicate OnLineAt<T>(m: Monoid<T>, smul: (real, T) -> T, s: real, t: real, v: T) {
    m.mul(smul(s, v), smul(t, v)) == smul(s + t, v) && smul(1.0, v) == v
  }

  ghost predicate OnLines<T(!new)>(m: Monoid<T>, smul: (real, T) -> T) {
    forall s: real, t: real, v: T :: OnLineAt(m, smul, s, t, v)
  }

  function HalfOf<T>(smul: (real, T) -> T): T -> T {
    (v: T) => smul(0.5, v)
  }

  /** Where that law holds, halving by the scalar 1/2 splits every value exactly. */
  lemma ScalarHalvingIsExact<T(!new)>(m: Monoid<T>, smul: (real, T) -> T)
    requires OnLines(m, smul)
    ensures SplitExact(m, Halving(HalfOf(smul)), Anything())
  {
    forall v: T
      ensures m.mul(HalfOf(smul)(v), HalfOf(smul)(v)) == v
    {
      assert OnLineAt(m, smul, 0.5, 0.5, v);
    }
    HalvingIsExact(m, HalfOf(smul));
  }

  // ----- the hooks of a function stream -----

  /** The value of an interval is what the function says it is. */
  ghost function Given<T(!new)>(f: New<T>): Held<T> {
    (d: DyadicInterval, v: T) => v == f(d)
  }

  /** The function is asked for the halves; the value of the whole is not looked at. */
  function AskAgain<T>(f: New<T>): Split<T> {
    (l: DyadicInterval, r: DyadicInterval, v: T) => (f(l), f(r))
  }

  ghost predicate AdditiveAt<T>(m: Monoid<T>, f: New<T>, d: DyadicInterval) {
    f(d) == m.mul(f(d.LeftHalf()), f(d.RightHalf()))
  }

  ghost predicate Additive<T>(m: Monoid<T>, f: New<T>) {
    forall d: DyadicInterval :: AdditiveAt(m, f, d)
  }

  /** A function stream's hooks are exact on what it can hold exactly if the function is additive. */
  lemma AskingIsExact<T(!new)>(m: Monoid<T>, f: New<T>)
    ensures SplitExact(m, AskAgain(f), Given(f)) <==> Additive(m, f)
    ensures GrowthExact(m, f, f, Given(f)) <==> Additive(m, f)
  {
    if SplitExact(m, AskAgain(f), Given(f)) {
      forall d: DyadicInterval
        ensures AdditiveAt(m, f, d)
      {
        assert SplitExactAt(m, AskAgain(f), Given(f), d, f(d));
      }
    }
    if GrowthExact(m, f, f, Given(f)) {
      forall d: DyadicInterval
        ensures AdditiveAt(m, f, d)
      {
        assert GrowthExactAt(m, f, f, Given(f), d);
      }
    }
    if Additive(m, f) {
      forall d: DyadicInterval, v: T
        ensures SplitExactAt(m, AskAgain(f), Given(f), d, v)
      {
        assert AdditiveAt(m, f, d);
      }
      forall d: DyadicInterval
        ensures GrowthExactAt(m, f, f, Given(f), d)
      {
        assert AdditiveAt(m, f, d);
      }
    }
  }

  function ValuesOf<T>(f: New<T>, pieces: seq<DyadicInterval>): seq<T> {
    seq(|pieces|, i requires 0 <= i < |pieces| => f(pieces[i]))
  }

  /** What a function stream answers: the product of the function over the pieces of the query. */
  lemma AnswerIsFunction<T(!new)>(m: Monoid<T>, f: New<T>, tree: Tree<T>, inf: real, sup: real, r: int)
    requires AllHeld(Given(f), tree) && Answered(tree, inf, sup, r)
    ensures Answer(m, tree, inf, sup, r) == Product(m, ValuesOf(f, Pieces(FloorAt(inf, r), FloorAt(sup, r), r)))
  {
    hide Pieces, FloorAt;
    var pieces := Pieces(FloorAt(inf, r), FloorAt(sup, r), r);
    assert NodeValues(tree, pieces) == ValuesOf(f, pieces);
  }
}
