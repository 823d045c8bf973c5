/** Log signatures under the Campbell-Baker-Hausdorff product: an associative product with a
    unit, about which nothing else is assumed. */
module Monoids {

  datatype Monoid<!T> = Monoid(one: T, mul: (T, T) -> T)

  ghost predicate AssociativeAt<T>(m: Monoid<T>, a: T, b: T, c: T) {
    m.mul(m.mul(a, b), c) == m.mul(a, m.mul(b, c))
  }

  ghost predicate UnitAt<T>(m: Monoid<T>, a: T) {
    m.mul(m.one, a) == a && m.mul(a, m.one) == a
  }

  ghost predicate Lawful<T(!new)>(m: Monoid<T>) {
    && (forall a, b, c :: AssociativeAt(m, a, b, c))
    && (forall a :: UnitAt(m, a))
  }

  /** The ordered product of a list. */
  function Product<T>(m: Monoid<T>, xs: seq<T>): T {
    if xs == [] then m.one else m.mul(xs[0], Product(m, xs[1..]))
  }

  lemma ProductOne<T(!new)>(m: Monoid<T>, x: T)
    requires Lawful(m)
    ensures Product(m, [x]) == x
  {
    assert UnitAt(m, x);
    assert Product(m, [x]) == m.mul(x, Product(m, [x][1..]));
  }

  lemma {:induction false} ProductConcat<T(!new)>(m: Monoid<T>, xs: seq<T>, ys: seq<T>)
    requires Lawful(m)
    ensures Product(m, xs + ys) == m.mul(Product(m, xs), Product(m, ys))
    decreases |xs|
  {
    if xs == [] {
      assert xs + ys == ys;
      assert UnitAt(m, Product(m, ys));
    } else {
      assert (xs + ys)[1..] == xs[1..] + ys;
      ProductConcat(m, xs[1..], ys);
      assert AssociativeAt(m, xs[0], Product(m, xs[1..]), Product(m, ys));
    }
  }

  lemma ProductPair<T(!new)>(m: Monoid<T>, x: T, y: T)
    requires Lawful(m)
    ensures Product(m, [x, y]) == m.mul(x, y)
  {
    assert [x, y] == [x] + [y];
    ProductConcat(m, [x], [y]);
    ProductOne(m, x);
    ProductOne(m, y);
  }

  /** Integers under addition. */
  function Sums(): Monoid<int> {
    Monoid(0, (a: int, b: int) => a + b)
  }

  lemma SumsLawful()
    ensures Lawful(Sums())
  {
    assert forall a: int, b: int, c: int :: AssociativeAt(Sums(), a, b, c);
    assert forall a: int :: UnitAt(Sums(), a);
  }

  /** The number of entries that are not zero. */
  function NonOnes<T(==)>(m: Monoid<T>, xs: seq<T>): nat {
    if xs == [] then 0 else NonOnes(m, xs[..|xs| - 1]) + (if xs[|xs| - 1] == m.one then 0 else 1)
  }

  /** The multiplications it takes to put them together. */
  function Products<T(==)>(m: Monoid<T>, xs: seq<T>): nat {
    if NonOnes(m, xs) == 0 then 0 else NonOnes(m, xs) - 1
  }

  lemma NonOnesStep<T>(m: Monoid<T>, xs: seq<T>)
    requires xs != []
    ensures NonOnes(m, xs) == NonOnes(m, xs[..|xs| - 1]) + (if xs[|xs| - 1] == m.one then 0 else 1)
  {
  }

  lemma {:induction false} NonOnesBound<T>(m: Monoid<T>, xs: seq<T>)
    ensures NonOnes(m, xs) <= |xs|
    decreases |xs|
  {
    if xs != [] {
      NonOnesBound(m, xs[..|xs| - 1]);
    }
  }

  /** `Context::cbh`: a single entry is passed through; otherwise the non-zero entries are
      multiplied up from the left. Multiplying the first of them onto the unit is not counted. */
  method Cbh<T(==, !new)>(m: Monoid<T>, lies: seq<T>) returns (r: T, ghost products: nat)
    requires Lawful(m)
    ensures r == Product(m, lies) && products == Products(m, lies)
  {
    if |lies| == 1 {
      ProductOne(m, lies[0]);
      NonOnesBound(m, lies);
      assert lies == [lies[0]];
      return lies[0], 0;
    }
    r := m.one;
    products := 0;
    for i := 0 to |lies|
      invariant r == Product(m, lies[..i]) && products == Products(m, lies[..i])
    {
      hide Lawful;
      assert lies[..i + 1] == lies[..i] + [lies[i]];
      assert lies[..i + 1][..i] == lies[..i];
      ProductConcat(m, lies[..i], [lies[i]]);
      ProductOne(m, lies[i]);
      UnitRight(m, r);
      if lies[i] != m.one {
        if NonOnes(m, lies[..i]) > 0 {
          products := products + 1;
        }
        r := m.mul(r, lies[i]);
      }
    }
    assert lies[..|lies|] == lies;
  }

  lemma UnitRight<T(!new)>(m: Monoid<T>, a: T)
    requires Lawful(m)
    ensures m.mul(a, m.one) == a
  {
    assert UnitAt(m, a);
  }
}
