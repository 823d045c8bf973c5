/** Integer arithmetic shared by the dyadic types: powers of two, the C++
    remainder and quotient, and repeated floor halving. */
module Powers {

  function Pow2(n: nat): (p: nat)
    ensures p >= 1
  {
    if n == 0 then 1 else 2 * Pow2(n - 1)
  }

  /** `Dyadic::shift`: k scaled up by n binary places. */
  function Shift(k: int, n: nat): int {
    k * Pow2(n)
  }

  /** The C++ operators `/` and `%`, which truncate toward zero. */
  function CQuo(a: int, b: int): int
    requires b != 0
  {
    if (a < 0) == (b < 0) then Abs(a) / Abs(b) else -(Abs(a) / Abs(b))
  }

  function CRem(a: int, b: int): int
    requires b != 0
  {
    a - b * CQuo(a, b)
  }

  function Abs(a: int): nat {
    if a < 0 then -a else a
  }

  /** `Dyadic::mod`: the C++ remainder moved into the non-negative range. */
  function Mod(a: int, b: int): int
    requires b != 0
  {
    var r := CRem(a, b);
    if r < 0 then r + Abs(b) else r
  }

  /** The j-fold parent of position k: floor(k / 2^j), by repeated halving. */
  function Up(k: int, j: nat): int
    decreases j
  {
    if j == 0 then k else Up(k / 2, j - 1)
  }

  /** On the same side of zero, to which zero itself belongs on the right. */
  predicate SameSide(a: int, b: int) {
    (a < 0) == (b < 0)
  }

  lemma {:induction false} Pow2Add(a: nat, b: nat)
    ensures Pow2(a + b) == Pow2(a) * Pow2(b)
  {
    if a == 0 {
    } else {
      Pow2Add(a - 1, b);
      assert 2 * (Pow2(a - 1) * Pow2(b)) == (2 * Pow2(a - 1)) * Pow2(b);
    }
  }

  lemma {:induction false} Pow2Mono(a: nat, b: nat)
    requires a <= b
    ensures Pow2(a) <= Pow2(b)
    ensures a < b ==> Pow2(a) < Pow2(b)
  {
    if a == b {
    } else {
      Pow2Mono(a, b - 1);
    }
  }

  lemma ShiftZero(k: int)
    ensures Shift(k, 0) == k
  {
  }

  lemma ShiftStep(k: int, n: nat)
    ensures Shift(k, n + 1) == 2 * Shift(k, n)
    ensures Shift(k, n + 1) == Shift(2 * k, n)
  {
    var p := Pow2(n);
    assert k * (2 * p) == 2 * (k * p);
    assert k * (2 * p) == (2 * k) * p;
  }

  lemma ShiftAdd(k: int, a: nat, b: nat)
    ensures Shift(Shift(k, a), b) == Shift(k, a + b)
  {
    Pow2Add(a, b);
    assert (k * Pow2(a)) * Pow2(b) == k * (Pow2(a) * Pow2(b));
  }

  lemma ShiftLess(x: int, y: int, n: nat)
    requires x < y
    ensures Shift(x, n) < Shift(y, n)
  {
    var p, d := Pow2(n), y - x;
    assert (x + d) * p == x * p + d * p;
    assert d * p >= 1 by { ProductPositive(d, p); }
  }

  lemma ProductPositive(a: int, b: int)
    requires a >= 1 && b >= 1
    ensures a * b >= b
  {
    assert a * b == (a - 1) * b + b;
  }

  lemma ShiftMono(x: int, y: int, n: nat)
    ensures x <= y <==> Shift(x, n) <= Shift(y, n)
    ensures x < y <==> Shift(x, n) < Shift(y, n)
    ensures Shift(x, n) == Shift(y, n) ==> x == y
  {
    if x < y {
      ShiftLess(x, y, n);
    } else if y < x {
      ShiftLess(y, x, n);
    }
  }

  lemma ShiftSucc(x: int, n: nat)
    ensures Shift(x + 1, n) == Shift(x, n) + Pow2(n)
  {
  }

  /** x lies under k after j halvings exactly when x is one of the 2^j
      positions that start at k * 2^j. */
  lemma {:induction false} UpWindow(x: int, j: nat, k: int)
    ensures Up(x, j) == k <==> Shift(k, j) <= x < Shift(k + 1, j)
    decreases j
  {
    if j == 0 {
    } else {
      UpWindow(x / 2, j - 1, k);
      ShiftStep(k, j - 1);
      ShiftStep(k + 1, j - 1);
    }
  }

  lemma {:induction false} UpAdd(x: int, i: nat, j: nat)
    ensures Up(Up(x, i), j) == Up(x, i + j)
    decreases i
  {
    if i == 0 {
    } else {
      UpAdd(x / 2, i - 1, j);
    }
  }

  lemma UpStep(x: int, j: nat)
    ensures Up(x, j + 1) == Up(x, j) / 2
    ensures Up(x, j + 1) == Up(x / 2, j)
  {
    UpAdd(x, j, 1);
    assert Up(Up(x, j), 1) == Up(Up(x, j) / 2, 0);
  }

  lemma {:induction false} UpKeepsSide(k: int, j: nat)
    ensures Up(k, j) < 0 <==> k < 0
    decreases j
  {
    if j > 0 {
      UpKeepsSide(k / 2, j - 1);
    }
  }

  lemma UpShift(k: int, j: nat)
    ensures Up(Shift(k, j), j) == k
  {
    UpWindow(Shift(k, j), j, k);
    ShiftMono(k, k + 1, j);
  }

  lemma {:induction false} UpMono(x: int, y: int, j: nat)
    requires x <= y
    ensures Up(x, j) <= Up(y, j)
    decreases j
  {
    if j == 0 {
    } else {
      UpMono(x / 2, y / 2, j - 1);
    }
  }

  lemma AbsProduct(a: int, b: int)
    ensures Abs(a * b) == Abs(a) * Abs(b)
  {
    if a < 0 {
      assert (-a) * b == -(a * b);
    }
    if b < 0 {
      assert Abs(a) * (-b) == -(Abs(a) * b);
    }
  }

  lemma MultipleBelow(b: int, d: int)
    requires b != 0 && Abs(b * d) < Abs(b)
    ensures d == 0
  {
    AbsProduct(b, d);
    if d != 0 {
      ProductPositive(Abs(d), Abs(b));
    }
  }

  /** Truncation toward zero: the remainder is smaller than the divisor and has the sign of the
      dividend. */
  lemma CQuoTruncates(a: int, b: int)
    requires b != 0
    ensures a == b * CQuo(a, b) + CRem(a, b) && Abs(CRem(a, b)) < Abs(b)
    ensures a >= 0 ==> CRem(a, b) >= 0
    ensures a <= 0 ==> CRem(a, b) <= 0
  {
    var q, r := Abs(a) / Abs(b), Abs(a) % Abs(b);
    assert Abs(a) == Abs(b) * q + r;
    NegateProduct(b, q);
    assert CRem(a, b) == if a < 0 then -r else r;
  }

  lemma NegateProduct(b: int, q: int)
    ensures b * -q == -(b * q) && -b * q == -(b * q)
  {
  }

  /** The quotient of a multiple is exact, for either sign. */
  lemma CQuoOfMultiple(a: int, b: int, q: int)
    requires b != 0 && a == q * b
    ensures CQuo(a, b) == q && CRem(a, b) == 0
  {
    CQuoTruncates(a, b);
    var d := q - CQuo(a, b);
    assert b * d == b * q - b * CQuo(a, b);
    MultipleBelow(b, d);
  }

  /** The C++ remainder is zero exactly on multiples, and the quotient is then exact. */
  lemma CRemZero(a: int, b: int)
    requires b > 0
    ensures CRem(a, b) == 0 <==> a % b == 0
    ensures a % b == 0 ==> CQuo(a, b) * b == a
  {
    CQuoTruncates(a, b);
    assert a == b * (a / b) + a % b;
    if a % b == 0 {
      CQuoOfMultiple(a, b, a / b);
    }
    if CRem(a, b) == 0 {
      RemainderUnique(a, b, CQuo(a, b), 0);
    }
  }

  lemma RemainderUnique(a: int, b: int, q: int, r: int)
    requires 0 <= r < b && a == b * q + r
    ensures a % b == r && a / b == q
  {
    var d := a / b - q;
    assert a == b * (a / b) + a % b;
    assert b * d == b * (a / b) - b * q;
    MultipleBelow(b, d);
  }

  /** `Dyadic::mod` is the non-negative remainder. */
  lemma ModIsEuclidean(a: int, b: int)
    requires b > 0
    ensures Mod(a, b) == a % b
  {
    CQuoTruncates(a, b);
    var q, r := CQuo(a, b), CRem(a, b);
    if r < 0 {
      assert b * (q - 1) == b * q - b;
      RemainderUnique(a, b, q - 1, r + b);
    } else {
      RemainderUnique(a, b, q, r);
    }
  }

  /** Rounding down to a multiple of 2^j, as the C++ writes it, is shifting the j-fold parent back. */
  lemma RoundDown(x: int, j: nat)
    ensures x - Mod(x, Pow2(j)) == Shift(Up(x, j), j)
    ensures Up(x, j) == x / Pow2(j)
  {
    var p := Pow2(j);
    ModIsEuclidean(x, p);
    var q := x / p;
    assert x == p * q + x % p;
    assert Shift(q, j) == p * q;
    ShiftSucc(q, j);
    UpWindow(x, j, q);
  }

  /** 2^j divides x exactly when x is the shift of its own j-fold parent. */
  lemma DividesUp(x: int, j: nat)
    ensures x % Pow2(j) == 0 <==> Shift(Up(x, j), j) == x
  {
    RoundDown(x, j);
    ModIsEuclidean(x, Pow2(j));
  }
}
