/** Clopen dyadic intervals [k / 2^n, (k+1) / 2^n). */
module DyadicIntervals {
  import opened Powers
  import opened Dyadics

  datatype DyadicInterval = DyadicInterval(multiplier: int, power: int) {
    function IncludedEnd(): Dyadic {
      Dyadic(multiplier, power)
    }

    function ExcludedEnd(): Dyadic {
      Dyadic(multiplier + 1, power)
    }

    /** The start and the end, counted in grains of size 2^-t. */
    function Lo(t: int): int
      requires t >= power
    {
      Shift(multiplier, t - power)
    }

    function Hi(t: int): int
      requires t >= power
    {
      Shift(multiplier + 1, t - power)
    }

    function ShrinkToContainedEnd(arg: nat := 1): DyadicInterval {
      Rounded(IncludedEnd(), power + arg)
    }

    function ShrinkToOmittedEnd(): DyadicInterval {
      ShrinkToContainedEnd().Flipped()
    }

    function Flipped(): DyadicInterval {
      if CRem(multiplier, 2) == 0 then DyadicInterval(multiplier + 1, power)
      else DyadicInterval(multiplier - 1, power)
    }

    function LeftHalf(): DyadicInterval {
      DyadicInterval(2 * multiplier, power + 1)
    }

    function RightHalf(): DyadicInterval {
      DyadicInterval(2 * multiplier + 1, power + 1)
    }

    function Expanded(arg: nat := 1): DyadicInterval {
      Rounded(IncludedEnd(), power - arg)
    }

    /** The neighbours of the same length, as `--di` and `++di` leave them. */
    function Previous(): DyadicInterval {
      DyadicInterval(multiplier - 1, power)
    }

    function Next(): DyadicInterval {
      DyadicInterval(multiplier + 1, power)
    }

    predicate ContainsDyadic(other: DyadicInterval) {
      if other.power >= power then
        var pow := Pow2(other.power - power);
        var shifted := Shift(multiplier, other.power - power);
        var aligned := other.multiplier - Mod(other.multiplier, pow);
        shifted == aligned
      else false
    }

    /** The left half of its parent: rounding to the parent and back changes nothing. */
    predicate Aligned() {
      var parent := Rounded(IncludedEnd(), power - 1);
      SameInterval(this, Rounded(parent.IncludedEnd(), power))
    }
  }

  /** `Interval::operator==` on two clopen intervals. */
  predicate SameInterval(a: DyadicInterval, b: DyadicInterval) {
    a.IncludedEnd().Real() == b.IncludedEnd().Real() && a.ExcludedEnd().Real() == b.ExcludedEnd().Real()
  }

  /** The interval of the given resolution that holds d. */
  function Rounded(d: Dyadic, resolution: int): (i: DyadicInterval)
  {
    DyadicInterval(
      if resolution >= d.power then Shift(d.multiplier, resolution - d.power)
      else Up(d.multiplier, d.power - resolution),
      resolution)
  }

  /** floor(ldexp(val, resolution)) */
  function FloorAt(val: real, resolution: int): int {
    (val * RealPow2(resolution)).Floor
  }

  /** `operator<` on dyadic intervals, as written. */
  predicate Less(lhs: DyadicInterval, rhs: DyadicInterval) {
    if lhs.power == rhs.power then rhs.multiplier - lhs.multiplier > 0
    else if lhs.power > rhs.power then
      Shift(rhs.multiplier, lhs.power - rhs.power) - lhs.multiplier > 0
    else
      rhs.multiplier - Shift(lhs.multiplier, rhs.power - lhs.power) >= 0
  }

  // ----- what the operations mean -----

  lemma RoundedHolds(d: Dyadic, resolution: int)
    ensures Rounded(d, resolution).IncludedEnd().Real() <= d.Real() < Rounded(d, resolution).ExcludedEnd().Real()
  {
    var k := Rounded(d, resolution).multiplier;
    if resolution >= d.power {
      RealShift(d.multiplier, d.power, resolution - d.power);
      RealOrderAtPower(k, k + 1, resolution);
    } else {
      var j := d.power - resolution;
      UpWindow(d.multiplier, j, k);
      RealShift(k, resolution, j);
      RealShift(k + 1, resolution, j);
      RealOrderAtPower(d.multiplier, Shift(k, j), d.power);
      RealOrderAtPower(d.multiplier, Shift(k + 1, j), d.power);
    }
  }

  lemma RealPow2Inverse(n: int)
    ensures RealPow2(n) * RealPow2(-n) == 1.0
  {
    if n >= 0 {
      var p := Pow2(n) as real;
      assert p * (1.0 / p) == 1.0;
    } else {
      var p := Pow2(-n) as real;
      assert (1.0 / p) * p == 1.0;
    }
  }

  lemma MulCancel(x: real, p: real, q: real)
    requires p * q == 1.0
    ensures (x * p) * q == x
  {
    assert (x * p) * q == x * (p * q);
  }

  lemma FloorAtHolds(val: real, resolution: int)
    ensures Dyadic(FloorAt(val, resolution), resolution).Real() <= val
            < Dyadic(FloorAt(val, resolution) + 1, resolution).Real()
  {
    var p, q := RealPow2(resolution), RealPow2(-resolution);
    RealPow2Inverse(resolution);
    var x := val * p;
    MulCancel(val, p, q);
    var f := x.Floor as real;
    if f < x {
      ScaleLess(f, x, q);
    }
    ScaleLess(x, f + 1.0, q);
  }

  lemma FloorAtMono(x: real, y: real, resolution: int)
    requires x <= y
    ensures FloorAt(x, resolution) <= FloorAt(y, resolution)
  {
    if x < y {
      ScaleLess(x, y, RealPow2(resolution));
    }
  }

  lemma HalvesAre(i: DyadicInterval)
    ensures i.ShrinkToContainedEnd() == i.LeftHalf()
    ensures i.ShrinkToOmittedEnd() == i.RightHalf()
  {
    assert Pow2(1) == 2 * Pow2(0);
    CRemZero(2 * i.multiplier, 2);
  }

  lemma ExpandedIs(i: DyadicInterval, arg: nat)
    ensures i.Expanded(arg) == DyadicInterval(Up(i.multiplier, arg), i.power - arg)
  {
    ShiftZero(i.multiplier);
  }

  lemma ParentIs(i: DyadicInterval)
    ensures i.Expanded() == DyadicInterval(i.multiplier / 2, i.power - 1)
  {
    ExpandedIs(i, 1);
    assert Up(i.multiplier, 1) == Up(i.multiplier / 2, 0);
  }

  lemma AlignedIsEven(i: DyadicInterval)
    ensures i.Aligned() <==> i.multiplier % 2 == 0
    ensures i.Aligned() <==> i == i.Expanded().LeftHalf()
    ensures !i.Aligned() <==> i == i.Expanded().RightHalf()
  {
    ParentIs(i);
    var back := 2 * (i.multiplier / 2);
    assert Pow2(1) == 2 * Pow2(0);
    assert Rounded(i.Expanded().IncludedEnd(), i.power) == DyadicInterval(back, i.power);
    RealOrderAtPower(i.multiplier, back, i.power);
    RealOrderAtPower(i.multiplier + 1, back + 1, i.power);
  }

  lemma ContainsIsUp(outer: DyadicInterval, inner: DyadicInterval)
    ensures outer.ContainsDyadic(inner) <==>
            inner.power >= outer.power && Up(inner.multiplier, inner.power - outer.power) == outer.multiplier
  {
    if inner.power >= outer.power {
      var j := inner.power - outer.power;
      RoundDown(inner.multiplier, j);
      ShiftMono(outer.multiplier, Up(inner.multiplier, j), j);
    }
  }

  lemma ContainsWindow(outer: DyadicInterval, inner: DyadicInterval, t: int)
    requires t >= outer.power && t >= inner.power
    ensures outer.ContainsDyadic(inner) <==> outer.Lo(t) <= inner.Lo(t) && inner.Hi(t) <= outer.Hi(t)
  {
    ContainsIsUp(outer, inner);
    if inner.power >= outer.power {
      var j, s := inner.power - outer.power, t - inner.power;
      UpWindow(inner.multiplier, j, outer.multiplier);
      ShiftAdd(outer.multiplier, j, s);
      ShiftAdd(outer.multiplier + 1, j, s);
      ShiftMono(Shift(outer.multiplier, j), inner.multiplier, s);
      ShiftMono(inner.multiplier + 1, Shift(outer.multiplier + 1, j), s);
    } else {
      WindowLength(outer, t);
      WindowLength(inner, t);
      Pow2Mono(t - outer.power, t - inner.power);
    }
  }

  lemma WindowLength(i: DyadicInterval, t: int)
    requires t >= i.power
    ensures i.Hi(t) == i.Lo(t) + Pow2(t - i.power)
  {
    ShiftSucc(i.multiplier, t - i.power);
  }

  /** The halves share out the grains of an interval. */
  lemma HalfWindows(i: DyadicInterval, t: int)
    requires t > i.power
    ensures i.LeftHalf().Lo(t) == i.Lo(t)
    ensures i.LeftHalf().Hi(t) == i.RightHalf().Lo(t)
    ensures i.RightHalf().Hi(t) == i.Hi(t)
    ensures i.Lo(t) < i.LeftHalf().Hi(t) < i.Hi(t)
  {
    var j := t - i.power - 1;
    ShiftStep(i.multiplier, j);
    ShiftStep(i.multiplier + 1, j);
    ShiftMono(2 * i.multiplier, 2 * i.multiplier + 1, j);
    ShiftMono(2 * i.multiplier + 1, 2 * i.multiplier + 2, j);
  }

  lemma WindowReal(i: DyadicInterval, t: int)
    requires t >= i.power
    ensures Dyadic(i.Lo(t), t).Real() == i.IncludedEnd().Real()
    ensures Dyadic(i.Hi(t), t).Real() == i.ExcludedEnd().Real()
  {
    RealShift(i.multiplier, i.power, t - i.power);
    RealShift(i.multiplier + 1, i.power, t - i.power);
  }

  /** The halves lie end to end. */
  lemma HalvesMeet(i: DyadicInterval)
    ensures i.LeftHalf().IncludedEnd().Real() == i.IncludedEnd().Real()
    ensures i.LeftHalf().ExcludedEnd().Real() == i.RightHalf().IncludedEnd().Real()
    ensures i.RightHalf().ExcludedEnd().Real() == i.ExcludedEnd().Real()
    ensures i.IncludedEnd().Real() < i.LeftHalf().ExcludedEnd().Real() < i.ExcludedEnd().Real()
  {
    var n := i.power + 1;
    HalfWindows(i, n);
    WindowReal(i, n);
    WindowReal(i.LeftHalf(), n);
    WindowReal(i.RightHalf(), n);
    RealOrderAtPower(i.Lo(n), i.LeftHalf().Hi(n), n);
    RealOrderAtPower(i.LeftHalf().Hi(n), i.Hi(n), n);
  }

  /** `contains_dyadic` is inclusion of intervals of numbers. */
  lemma ContainsIsInclusion(outer: DyadicInterval, inner: DyadicInterval)
    ensures outer.ContainsDyadic(inner) <==>
            && outer.IncludedEnd().Real() <= inner.IncludedEnd().Real()
            && inner.ExcludedEnd().Real() <= outer.ExcludedEnd().Real()
  {
    var t := Max(outer.power, inner.power);
    ContainsWindow(outer, inner, t);
    WindowReal(outer, t);
    WindowReal(inner, t);
    RealOrderAtPower(inner.Lo(t), outer.Lo(t), t);
    RealOrderAtPower(outer.Hi(t), inner.Hi(t), t);
  }

  lemma ContainsItself(d: DyadicInterval)
    ensures d.ContainsDyadic(d)
  {
    ContainsIsUp(d, d);
    assert Up(d.multiplier, 0) == d.multiplier;
  }

  lemma ContainsTransitive(a: DyadicInterval, b: DyadicInterval, c: DyadicInterval)
    requires a.ContainsDyadic(b) && b.ContainsDyadic(c)
    ensures a.ContainsDyadic(c)
  {
    ContainsIsInclusion(a, b);
    ContainsIsInclusion(b, c);
    ContainsIsInclusion(a, c);
  }

  /** Two dyadic intervals are nested or disjoint. */
  lemma NestedOrDisjoint(a: DyadicInterval, b: DyadicInterval, t: int)
    requires t >= a.power && t >= b.power
    ensures a.ContainsDyadic(b) || b.ContainsDyadic(a) || a.Hi(t) <= b.Lo(t) || b.Hi(t) <= a.Lo(t)
    ensures a.power <= b.power && !a.ContainsDyadic(b) ==> a.Hi(t) <= b.Lo(t) || b.Hi(t) <= a.Lo(t)
  {
    if a.power <= b.power {
      CoarseNestedOrDisjoint(a, b, t);
    } else {
      CoarseNestedOrDisjoint(b, a, t);
    }
  }

  lemma CoarseNestedOrDisjoint(a: DyadicInterval, b: DyadicInterval, t: int)
    requires t >= b.power >= a.power
    ensures a.ContainsDyadic(b) || a.Hi(t) <= b.Lo(t) || b.Hi(t) <= a.Lo(t)
  {
    var j, s := b.power - a.power, t - b.power;
    var up := Up(b.multiplier, j);
    ContainsIsUp(a, b);
    UpWindow(b.multiplier, j, up);
    if up < a.multiplier {
      ShiftMono(up + 1, a.multiplier, j);
      ShiftMono(b.multiplier + 1, Shift(a.multiplier, j), s);
      ShiftAdd(a.multiplier, j, s);
    } else if up > a.multiplier {
      ShiftMono(a.multiplier + 1, up, j);
      ShiftMono(Shift(a.multiplier + 1, j), b.multiplier, s);
      ShiftAdd(a.multiplier + 1, j, s);
    }
  }

  // ----- the map order -----

  /** The order in grains: by start, then the longer interval first. */
  lemma LessWindow(a: DyadicInterval, b: DyadicInterval, t: int)
    requires t >= a.power && t >= b.power
    ensures Less(a, b) <==> a.Lo(t) < b.Lo(t) || (a.Lo(t) == b.Lo(t) && a.power < b.power)
  {
    var m := Max(a.power, b.power);
    ShiftAdd(a.multiplier, m - a.power, t - m);
    ShiftAdd(b.multiplier, m - b.power, t - m);
    ShiftZero(a.multiplier);
    ShiftZero(b.multiplier);
    ShiftMono(a.Lo(m), b.Lo(m), t - m);
  }

  /** `operator<` is the lexicographic order of (start, power). */
  lemma LessIsLexicographic(a: DyadicInterval, b: DyadicInterval)
    ensures Less(a, b) <==>
            || a.IncludedEnd().Real() < b.IncludedEnd().Real()
            || (a.IncludedEnd().Real() == b.IncludedEnd().Real() && a.power < b.power)
  {
    var t := Max(a.power, b.power);
    LessWindow(a, b, t);
    WindowReal(a, t);
    WindowReal(b, t);
    RealOrderAtPower(a.Lo(t), b.Lo(t), t);
  }

  /** Hence a strict total order, as a map key needs. */
  lemma LessIsStrictTotal(a: DyadicInterval, b: DyadicInterval, c: DyadicInterval)
    ensures !Less(a, a)
    ensures Less(a, b) && Less(b, c) ==> Less(a, c)
    ensures a == b || Less(a, b) || Less(b, a)
    ensures !(Less(a, b) && Less(b, a))
  {
    LessIsLexicographic(a, b);
    LessIsLexicographic(b, a);
    LessIsLexicographic(b, c);
    LessIsLexicographic(a, c);
    RealOrderAtPower(a.multiplier, b.multiplier, a.power);
  }

  /** Tree preorder: a node comes before everything below it, and what lies below it comes
      before everything to its right. */
  lemma LessIsPreorder(node: DyadicInterval, below: DyadicInterval, other: DyadicInterval)
    requires node.ContainsDyadic(below) && node != below
    requires !node.ContainsDyadic(other) && !other.ContainsDyadic(node)
    ensures Less(node, below)
    ensures Less(node, other) <==> Less(below, other)
    ensures Less(other, node) <==> Less(other, below)
  {
    var t := Max(Max(node.power, below.power), other.power);
    ContainsWindow(node, below, t);
    ContainsIsUp(node, below);
    WindowLength(node, t);
    WindowLength(below, t);
    WindowLength(other, t);
    NestedOrDisjoint(node, other, t);
    LessWindow(node, below, t);
    LessWindow(node, other, t);
    LessWindow(below, other, t);
    LessWindow(other, node, t);
    LessWindow(other, below, t);
  }

  // ----- the object with in-place operations -----

  class DyadicIntervalObject {
    var multiplier: int
    var power: int

    function Value(): DyadicInterval
      reads this
    {
      DyadicInterval(multiplier, power)
    }

    /** Rounds a dyadic number down to the resolution, as far as the word size lets it. */
    constructor FromDyadic(d: Dyadic, resolution: int)
      ensures Value() == Constructed(d, resolution)
      ensures d.power - resolution < DIGITS ==> Value() == Rounded(d, resolution)
    {
      hide Shift, Representable, LeastPower, Rounded;
      ConstructedNear(d, resolution);
      var base := new DyadicObject(d);
      var reached := base.Rebase(resolution);
      if !reached {
        ReducedTo(d, base.Value(), resolution);
        var k1 := base.multiplier;
        var n1 := base.power;
        var j := n1 - resolution;
        base.multiplier := k1 - Mod(k1, Pow2(j));
        RoundDown(k1, j);
        ghost var cut := base.Value();
        var isInt := base.Rebase(resolution);
        CutBack(d, Dyadic(k1, n1), cut, base.Value(), resolution);
        assert isInt;
      } else {
        ReachedAtOnce(d, base.Value(), resolution);
      }
      multiplier, power := base.multiplier, base.power;
    }

    constructor FromParam(val: real, resolution: int)
      ensures Value() == DyadicInterval(FloorAt(val, resolution), resolution)
    {
      multiplier, power := FloorAt(val, resolution), resolution;
    }

    /** Goes to the other half of the parent. */
    method FlipInterval()
      modifies this
      ensures Value() == old(Value()).Flipped()
      ensures Value() != old(Value()) && Value().Expanded() == old(Value()).Expanded()
      ensures Value().Flipped() == old(Value())
    {
      FlippedShareParent(Value());
      if CRem(multiplier, 2) == 0 {
        multiplier := multiplier + 1;
      } else {
        multiplier := multiplier - 1;
      }
    }

    method ShrinkIntervalRight()
      modifies this
      ensures Value() == old(Value()).RightHalf()
    {
      HalvesAre(Value());
      var half := Value().ShrinkToOmittedEnd();
      multiplier, power := half.multiplier, half.power;
    }

    method ShrinkIntervalLeft(arg: nat := 1)
      modifies this
      ensures Value() == DyadicInterval(Shift(old(multiplier), arg), old(power) + arg)
    {
      var n := arg;
      ShiftZero(multiplier);
      while n > 0
        invariant 0 <= n <= arg
        invariant Value() == DyadicInterval(Shift(old(multiplier), arg - n), old(power) + arg - n)
      {
        HalvesAre(Value());
        ShiftStep(old(multiplier), arg - n);
        var half := Value().ShrinkToContainedEnd();
        multiplier, power := half.multiplier, half.power;
        n := n - 1;
      }
    }

    method ExpandInterval(arg: nat := 1)
      modifies this
      ensures Value() == Constructed(old(Value()).IncludedEnd(), old(power) - arg)
      ensures arg < DIGITS ==> Value() == old(Value()).Expanded(arg)
    {
      var tmp := new DyadicIntervalObject.FromDyadic(Value().IncludedEnd(), power - arg);
      multiplier, power := tmp.multiplier, tmp.power;
    }

    method Advance()
      modifies this
      ensures Value() == old(Value()).Next()
    {
      multiplier := multiplier + 1;
    }
  }

  /** Flipping stays below the same parent, and twice it leads back. */
  lemma FlippedShareParent(d: DyadicInterval)
    ensures d.Flipped() != d && d.Flipped().Expanded() == d.Expanded()
    ensures d.Flipped().Flipped() == d
  {
    CRemZero(d.multiplier, 2);
    CRemZero(d.Flipped().multiplier, 2);
    ParentIs(d);
    ParentIs(d.Flipped());
    hide CRem;
  }

  // ----- rounding further than the word size -----

  /** The least power not below t at which d can be written. */
  function LeastPower(d: Dyadic, t: int): (p: int)
    requires t <= d.power
    ensures t <= p <= d.power
    decreases d.power - t
  {
    if t == d.power || Representable(d, t) then t else LeastPower(d, t + 1)
  }

  /** The interval that the constructor makes. Each normalisation goes 30 places at most, and one
      that gets that far counts as a success, so that over 31 places and more the result can be
      an interval of another power than the resolution. */
  function Constructed(d: Dyadic, resolution: int): DyadicInterval {
    if d.multiplier == 0 || d.power - resolution < DIGITS then Rounded(d, resolution)
    else
      var t := d.power - DIGITS + 1;
      var n := LeastPower(d, t);
      var k := Rounded(d, resolution).multiplier;
      if n == t then DyadicInterval(Up(d.multiplier, DIGITS - 1), t)
      else if k == 0 || n - resolution < DIGITS then DyadicInterval(k, resolution)
      else DyadicInterval(Shift(k, n - DIGITS + 1 - resolution), n - DIGITS + 1)
  }

  lemma ConstructedNear(d: Dyadic, resolution: int)
    ensures d.power - resolution < DIGITS ==> Constructed(d, resolution) == Rounded(d, resolution)
  {
  }

  /** The constructor rounds to the resolution exactly if 30 places are enough: at once, or after
      the number has been reduced to its least power, which must itself take fewer. */
  lemma ConstructedReaches(d: Dyadic, resolution: int)
    ensures Constructed(d, resolution) == Rounded(d, resolution) <==>
              || d.multiplier == 0
              || d.power - resolution < DIGITS
              || (!Representable(d, d.power - DIGITS + 1)
                  && (Rounded(d, resolution).multiplier == 0
                      || LeastPower(d, d.power - DIGITS + 1) - resolution < DIGITS))
    ensures Constructed(d, resolution).power >= resolution
  {
    hide Representable;
    LeastPowerIs(d, d.power - DIGITS + 1, LeastPower(d, d.power - DIGITS + 1));
    hide Shift, Rounded, LeastPower;
    assert Rounded(d, resolution).power == resolution;
  }

  /** An example with a multiplier below 2^31: the interval of length 1 from 2^30 * 2^-31 should be
      [0, 1) and comes out as [1/2, 1). */
  lemma FarConstruction()
    ensures Constructed(Dyadic(Pow2(30), 31), 0) == DyadicInterval(1, 1)
    ensures Rounded(Dyadic(Pow2(30), 31), 0) == DyadicInterval(0, 0)
  {
    assert Shift(1, 30) == Pow2(30);
    UpShift(1, 30);
    UpAdd(Pow2(30), 30, 1);
  }

  lemma {:induction false} LeastPowerIs(d: Dyadic, t: int, p: int)
    requires t <= p <= d.power
    ensures p == LeastPower(d, t) <==> Representable(d, p) && forall q :: t <= q < p ==> !Representable(d, q)
    decreases p - t
  {
    ShiftZero(d.multiplier);
    if t < p && !Representable(d, t) {
      LeastPowerIs(d, t + 1, p);
    }
  }

  /** Where a normalisation that does not reach the resolution leaves the number. */
  lemma ReducedTo(d: Dyadic, e: Dyadic, resolution: int)
    requires d.multiplier != 0 && resolution < d.power && e.Real() == d.Real()
    requires var t := RebaseTarget(d.power, resolution);
             && t < e.power <= d.power && Representable(d, e.power)
                 && (forall p :: t <= p < e.power ==> !Representable(d, p))
    ensures e.power == LeastPower(d, RebaseTarget(d.power, resolution)) && e.power > resolution
  {
    LeastPowerIs(d, RebaseTarget(d.power, resolution), e.power);
  }

  /** A normalisation that says it has succeeded. */
  lemma ReachedAtOnce(d: Dyadic, e: Dyadic, resolution: int)
    requires e.Real() == d.Real()
    requires d.multiplier == 0 || resolution >= d.power ==> e.power == resolution
    requires d.multiplier != 0 && resolution < d.power ==>
               e.power == RebaseTarget(d.power, resolution) && Representable(d, e.power)
    ensures DyadicInterval(e.multiplier, e.power) == Constructed(d, resolution)
  {
    if e.power == resolution {
      RebaseKeepsFloor(d, e, resolution);
      ShiftZero(e.multiplier);
    }
    if d.multiplier != 0 && d.power - resolution >= DIGITS {
      LeastPowerIs(d, e.power, e.power);
      RepresentableMeansEqual(d, e.power, e.multiplier);
      RealOrderAtPower(e.multiplier, Up(d.multiplier, d.power - e.power), e.power);
    }
  }

  /** The second normalisation, after the remainder has been cut off. */
  lemma CutBack(d: Dyadic, e: Dyadic, cut: Dyadic, f: Dyadic, resolution: int)
    requires d.multiplier != 0 && resolution < e.power <= d.power && e.Real() == d.Real()
    requires e.power == LeastPower(d, RebaseTarget(d.power, resolution)) && e.power > RebaseTarget(d.power, resolution)
    requires cut == Dyadic(Shift(Up(e.multiplier, e.power - resolution), e.power - resolution), e.power)
    requires f.Real() == cut.Real()
    requires cut.multiplier == 0 ==> f.power == resolution
    requires cut.multiplier != 0 ==>
               var t := RebaseTarget(cut.power, resolution);
               t <= f.power <= cut.power && forall p :: t <= p < f.power ==> !Representable(cut, p)
    ensures cut.multiplier != 0 ==> f.power == RebaseTarget(cut.power, resolution)
    ensures DyadicInterval(f.multiplier, f.power) == Constructed(d, resolution)
  {
    var j := e.power - resolution;
    var k := Up(e.multiplier, j);
    RebaseKeepsFloor(d, e, resolution);
    assert k == Rounded(d, resolution).multiplier;
    var t := if cut.multiplier == 0 then resolution else RebaseTarget(cut.power, resolution);
    CutRepresentable(k, j, e.power, t);
    assert f.power == t;
    RealShift(k, resolution, j);
    RealShift(k, resolution, t - resolution);
    RealOrderAtPower(f.multiplier, Shift(k, t - resolution), t);
    ShiftZero(k);
    hide Representable, LeastPower;
    CutCases(d, e.power, k, t, resolution, cut.multiplier == 0);
  }

  lemma CutRepresentable(k: int, j: nat, n: int, t: int)
    requires n - j <= t <= n
    ensures Representable(Dyadic(Shift(k, j), n), t)
  {
    ShiftAdd(k, t - (n - j), n - t);
    UpShift(Shift(k, t - (n - j)), n - t);
  }

  lemma CutCases(d: Dyadic, n: int, k: int, t: int, resolution: int, zero: bool)
    requires d.multiplier != 0 && resolution < n <= d.power && k == Rounded(d, resolution).multiplier
    requires n == LeastPower(d, RebaseTarget(d.power, resolution)) && n > RebaseTarget(d.power, resolution)
    requires t == if zero then resolution else RebaseTarget(n, resolution)
    requires zero <==> Shift(k, n - resolution) == 0
    ensures DyadicInterval(Shift(k, t - resolution), t) == Constructed(d, resolution)
  {
    ShiftMono(k, 0, n - resolution);
    ShiftMono(0, k, n - resolution);
    ShiftZero(k);
    ShiftStrict(k, n - resolution);
  }

  lemma ShiftStrict(k: int, j: nat)
    ensures Shift(k, j) == 0 <==> k == 0
  {
    UpShift(k, j);
    UpShift(0, j);
  }

  /** Normalising first does not change what rounding down gives. */
  lemma RebaseKeepsFloor(d: Dyadic, e: Dyadic, resolution: int)
    requires e.Real() == d.Real()
    ensures Rounded(d, resolution) == Rounded(e, resolution)
  {
    RoundedHolds(d, resolution);
    RoundedHolds(e, resolution);
    var x, y := Rounded(d, resolution).multiplier, Rounded(e, resolution).multiplier;
    RealOrderAtPower(x, y + 1, resolution);
    RealOrderAtPower(y, x + 1, resolution);
  }
}
