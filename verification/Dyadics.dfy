/** Dyadic rationals k / 2^n: normalisation (`rebase`), equality and order. */
module Dyadics {
  import opened Powers

  /** 2^n for an exponent of either sign. */
  function RealPow2(n: int): (p: real)
    ensures p > 0.0
  {
    if n >= 0 then Pow2(n) as real else 1.0 / (Pow2(-n) as real)
  }

  datatype Dyadic = Dyadic(multiplier: int, power: int) {
    /** The conversion to `param_t`: ldexp(k, -n). */
    function Real(): real {
      (multiplier as real) * RealPow2(-power)
    }

    /** The multiplier of this rational at a finer power. */
    function Scaled(at: int): int
      requires at >= power
    {
      Shift(multiplier, at - power)
    }
  }

  function Max(a: int, b: int): int {
    if a < b then b else a
  }

  /** The searcher's comparators, both at the larger of the two powers. */
  predicate StrictLess(lhs: Dyadic, rhs: Dyadic) {
    var max := Max(lhs.power, rhs.power);
    lhs.Scaled(max) < rhs.Scaled(max)
  }

  predicate StrictGreater(lhs: Dyadic, rhs: Dyadic) {
    var max := Max(lhs.power, rhs.power);
    lhs.Scaled(max) > rhs.Scaled(max)
  }

  predicate RatioIs(large: Dyadic, small: Dyadic)
    requires small.multiplier != 0
  {
    large.power >= small.power
    && CQuo(large.multiplier, small.multiplier) == Pow2(large.power - small.power)
  }

  predicate RationalEquals(lhs: Dyadic, rhs: Dyadic) {
    if lhs.multiplier == 0 && rhs.multiplier == 0 then true
    else if lhs.multiplier == 0 || rhs.multiplier == 0 then false
    else if CRem(lhs.multiplier, rhs.multiplier) == 0 && CQuo(lhs.multiplier, rhs.multiplier) >= 1 then
      RatioIs(lhs, rhs)
    else if CRem(rhs.multiplier, lhs.multiplier) == 0 && CQuo(rhs.multiplier, lhs.multiplier) >= 1 then
      RatioIs(rhs, lhs)
    else false
  }

  // ----- the order and equality of rationals -----

  lemma RealPow2Step(n: int)
    ensures RealPow2(n + 1) == 2.0 * RealPow2(n)
  {
    if n >= 0 {
      assert Pow2(n + 1) == 2 * Pow2(n);
    } else if n == -1 {
      assert Pow2(1) == 2 * Pow2(0);
    } else {
      var a := Pow2(-(n + 1));
      assert Pow2(-n) == 2 * a;
      assert 1.0 / (a as real) == 2.0 * (1.0 / (2 * a) as real);
    }
  }

  lemma {:induction false} RealShift(k: int, n: int, j: nat)
    ensures Dyadic(Shift(k, j), n + j).Real() == Dyadic(k, n).Real()
    decreases j
  {
    if j == 0 {
    } else {
      RealShift(k, n, j - 1);
      ShiftStep(k, j - 1);
      RealPow2Step(-(n + j));
      var s, p := Shift(k, j - 1), RealPow2(-(n + j));
      assert ((2 * s) as real) * p == (s as real) * (2.0 * p);
    }
  }

  lemma RealLessAtPower(x: int, y: int, n: int)
    requires x < y
    ensures Dyadic(x, n).Real() < Dyadic(y, n).Real()
  {
    ScaleLess(x as real, y as real, RealPow2(-n));
  }

  lemma RealOrderAtPower(x: int, y: int, n: int)
    ensures x < y <==> Dyadic(x, n).Real() < Dyadic(y, n).Real()
    ensures x == y <==> Dyadic(x, n).Real() == Dyadic(y, n).Real()
  {
    if x < y {
      RealLessAtPower(x, y, n);
    } else if y < x {
      RealLessAtPower(y, x, n);
    }
  }

  lemma ScaleLess(a: real, b: real, p: real)
    requires a < b && p > 0.0
    ensures a * p < b * p
  {
    assert (b - a) * p > 0.0;
    assert b * p - a * p == (b - a) * p;
  }

  /** Comparing at any common power is comparing the numbers themselves. */
  lemma ScaledOrder(a: Dyadic, b: Dyadic, at: int)
    requires at >= a.power && at >= b.power
    ensures a.Scaled(at) < b.Scaled(at) <==> a.Real() < b.Real()
    ensures a.Scaled(at) == b.Scaled(at) <==> a.Real() == b.Real()
  {
    RealShift(a.multiplier, a.power, at - a.power);
    RealShift(b.multiplier, b.power, at - b.power);
    RealOrderAtPower(a.Scaled(at), b.Scaled(at), at);
  }

  /** `DyadicRealStrictLess` and `DyadicRealStrictGreater` are the order of the rationals. */
  lemma ComparatorsAreRationalOrder(a: Dyadic, b: Dyadic)
    ensures StrictLess(a, b) <==> a.Real() < b.Real()
    ensures StrictGreater(a, b) <==> a.Real() > b.Real()
  {
    ScaledOrder(a, b, Max(a.power, b.power));
    ScaledOrder(b, a, Max(a.power, b.power));
  }

  /** A multiple by a positive factor, told apart by the C++ operators. */
  lemma ExactQuotient(a: int, b: int, q: int)
    requires b != 0 && q >= 1
    ensures a == q * b <==> CRem(a, b) == 0 && CQuo(a, b) == q
  {
    if a == q * b {
      CQuoOfMultiple(a, b, q);
    } else {
      assert CRem(a, b) == a - b * CQuo(a, b);
    }
  }

  lemma RatioMeansEqual(large: Dyadic, small: Dyadic)
    requires small.multiplier != 0 && large.power >= small.power
    ensures large.Real() == small.Real() <==>
            CRem(large.multiplier, small.multiplier) == 0
            && CQuo(large.multiplier, small.multiplier) == Pow2(large.power - small.power)
  {
    var p := Pow2(large.power - small.power);
    ScaledOrder(large, small, large.power);
    ShiftZero(large.multiplier);
    assert small.Scaled(large.power) == p * small.multiplier;
    ExactQuotient(large.multiplier, small.multiplier, p);
  }

  lemma ZeroReal(d: Dyadic)
    ensures d.Real() == 0.0 <==> d.multiplier == 0
  {
    RealOrderAtPower(d.multiplier, 0, d.power);
    assert Dyadic(0, d.power).Real() == 0.0;
  }

  lemma FactorsOfEachOther(x: int, y: int)
    requires x != 0 && y != 0
    requires CRem(x, y) == 0 && CQuo(x, y) >= 1
    requires CRem(y, x) == 0 && CQuo(y, x) >= 1
    ensures x == y && CQuo(x, y) == 1
  {
    var p, q := CQuo(x, y), CQuo(y, x);
    assert x == y * p && y == x * q;
    if p > 1 {
      assert x == (x * q) * p == x * (q * p);
      ProductPositive(q, p);
      CQuoOfMultiple(x, x, q * p);
      CQuoOfMultiple(x, x, 1);
    }
    ExactQuotient(x, y, 1);
  }

  /** `rational_equals` decides equality of the two rational numbers. */
  lemma RationalEqualsDecides(a: Dyadic, b: Dyadic)
    ensures RationalEquals(a, b) <==> a.Real() == b.Real()
  {
    ZeroReal(a);
    ZeroReal(b);
    if a.multiplier != 0 && b.multiplier != 0 {
      if a.power >= b.power {
        RatioMeansEqual(a, b);
      }
      if b.power >= a.power {
        RatioMeansEqual(b, a);
      }
      if CRem(a.multiplier, b.multiplier) == 0 && CQuo(a.multiplier, b.multiplier) >= 1
         && CRem(b.multiplier, a.multiplier) == 0 && CQuo(b.multiplier, a.multiplier) >= 1 {
        FactorsOfEachOther(a.multiplier, b.multiplier);
        FactorsOfEachOther(b.multiplier, a.multiplier);
        Pow2Mono(0, Abs(a.power - b.power));
      }
    }
  }

  // ----- rebase -----

  const DIGITS := 31 // std::numeric_limits of the multiplier and of the power

  /** The power `rebase` really aims for: requests too far below are cut off at 30 places. */
  function RebaseTarget(power: int, resolution: int): int {
    if power >= DIGITS + resolution then power - DIGITS + 1 else resolution
  }

  /** d can be written with the power p: rounding down to p loses nothing. */
  predicate Representable(d: Dyadic, p: int)
    requires p <= d.power
  {
    Shift(Up(d.multiplier, d.power - p), d.power - p) == d.multiplier
  }

  /** Representable means what it says: some multiplier at power p gives the same number. */
  lemma RepresentableMeansEqual(d: Dyadic, p: int, q: int)
    requires p <= d.power
    ensures Representable(d, p) ==> Dyadic(Up(d.multiplier, d.power - p), p).Real() == d.Real()
    ensures Dyadic(q, p).Real() == d.Real() ==> Representable(d, p)
  {
    var j := d.power - p;
    RealShift(Up(d.multiplier, j), p, j);
    RealShift(q, p, j);
    RealOrderAtPower(Shift(q, j), d.multiplier, d.power);
    UpShift(q, j);
  }

  lemma RemainderDecides(d: Dyadic, r: nat)
    ensures CRem(d.multiplier, Pow2(r)) == 0 <==> Representable(d, d.power - r)
    ensures CRem(d.multiplier, Pow2(r)) == 0 ==> Shift(CQuo(d.multiplier, Pow2(r)), r) == d.multiplier
  {
    CRemZero(d.multiplier, Pow2(r));
    DividesUp(d.multiplier, r);
  }

  /** The object whose fields `rebase` and the increments change in place. */
  class DyadicObject {
    var multiplier: int
    var power: int

    constructor (d: Dyadic)
      ensures Value() == d
    {
      multiplier, power := d.multiplier, d.power;
    }

    function Value(): Dyadic
      reads this
    {
      Dyadic(multiplier, power)
    }

    method MoveForward(arg: int)
      modifies this
      ensures Value() == Dyadic(old(multiplier) + arg, old(power))
    {
      multiplier := multiplier + arg;
    }

    /** Changes the power without changing the number. Going to a coarser power it stops at the
        smallest power not below the target that can hold the number, and reports whether that is
        the target itself, which is the request only when fewer than DIGITS places are asked for. */
    method Rebase(resolution: int) returns (exact: bool)
      modifies this
      ensures Value().Real() == old(Value()).Real()
      ensures old(multiplier) == 0 || resolution >= old(power) ==> power == resolution && exact
      ensures old(multiplier) != 0 && resolution < old(power) ==>
                var target := RebaseTarget(old(power), resolution);
                && target <= power <= old(power)
                && Representable(old(Value()), power)
                && Shift(multiplier, old(power) - power) == old(multiplier)
                && (forall p :: target <= p < power ==> !Representable(old(Value()), p))
                && (exact <==> power == target)
      ensures power == resolution <==>
                || old(multiplier) == 0
                || resolution >= old(power)
                || (old(power) - resolution < DIGITS && Representable(old(Value()), resolution))
    {
      if multiplier == 0 {
        power := resolution;
        ZeroReal(old(Value()));
        ZeroReal(Value());
        return true;
      } else if resolution >= power {
        RealShift(multiplier, power, resolution - power);
        multiplier := Shift(multiplier, resolution - power);
        power := resolution;
        return true;
      }

      var target := resolution;
      if power >= DIGITS + resolution {
        target := power - DIGITS + 1;
      }

      var relative := power - target;
      var r := relative;
      RemainderDecides(Value(), r);
      while CRem(multiplier, Pow2(r)) != 0
        invariant 0 <= r <= relative && Value() == old(Value())
        invariant CRem(multiplier, Pow2(r)) == 0 <==> Representable(old(Value()), power - r)
        invariant forall p :: target <= p < power - r ==> !Representable(old(Value()), p)
        decreases r
      {
        if r == 0 {
          ShiftZero(multiplier);
        }
        r := r - 1;
        RemainderDecides(Value(), r);
      }
      RemainderDecides(Value(), r);
      RealShift(CQuo(multiplier, Pow2(r)), power - r, r);
      multiplier := CQuo(multiplier, Pow2(r));
      power := power - r;
      return target == power;
    }
  }
}
