/** Sums of scalars times pairs of words, kept as dictionaries in the order of insertion. */
module TensorDicts {

  type Word = seq<nat>
  type Pair = (Word, Word)
  type Dict = seq<(Pair, real)>

  /** The key product as `TensorKey` has it: the right factor's letters come first. */
  function KeyTimes(u: Word, v: Word): Word {
    v + u
  }

  function PairTimes(a: Pair, b: Pair): Pair {
    (KeyTimes(a.0, b.0), KeyTimes(a.1, b.1))
  }

  lemma PairTimesAssociates(a: Pair, b: Pair, c: Pair)
    ensures PairTimes(PairTimes(a, b), c) == PairTimes(a, PairTimes(b, c))
  {
    assert c.0 + (b.0 + a.0) == (c.0 + b.0) + a.0;
    assert c.1 + (b.1 + a.1) == (c.1 + b.1) + a.1;
  }

  // ----- scalars -----

  function Mul(a: real, b: real): real {
    a * b
  }

  lemma MulFacts(a: real, b: real, c: real)
    ensures Mul(a, b + c) == Mul(a, b) + Mul(a, c)
    ensures Mul(a + b, c) == Mul(a, c) + Mul(b, c)
    ensures Mul(a, Mul(b, c)) == Mul(Mul(a, b), c)
    ensures Mul(a, Mul(b, c)) == Mul(b, Mul(a, c))
    ensures Mul(0.0, a) == 0.0 && Mul(a, 0.0) == 0.0 && Mul(1.0, a) == a && Mul(a, 1.0) == a
  {
  }

  // ----- what a dictionary stands for -----

  /** The dictionary as a linear functional: the sum of value times weight of key. */
  function Lin(d: Dict, f: Pair -> real): real {
    if d == [] then 0.0 else Lin(d[..|d| - 1], f) + Mul(d[|d| - 1].1, f(d[|d| - 1].0))
  }

  function Indicator(k: Pair): Pair -> real {
    (j: Pair) => if j == k then 1.0 else 0.0
  }

  /** The coefficient of a key. */
  function Coefficient(d: Dict, k: Pair): real {
    Lin(d, Indicator(k))
  }

  ghost predicate Distinct(d: Dict) {
    forall i, j :: 0 <= i < j < |d| ==> d[i].0 != d[j].0
  }

  ghost predicate NoZero(d: Dict) {
    forall i :: 0 <= i < |d| ==> d[i].1 != 0.0
  }

  lemma LinStep(d: Dict, e: (Pair, real), f: Pair -> real)
    ensures Lin(d + [e], f) == Lin(d, f) + Mul(e.1, f(e.0))
  {
    assert (d + [e])[..|d|] == d;
  }

  lemma {:induction false} LinSame(d: Dict, f: Pair -> real, g: Pair -> real)
    requires forall k: Pair :: f(k) == g(k)
    ensures Lin(d, f) == Lin(d, g)
    decreases |d|
  {
    if d != [] {
      LinSame(d[..|d| - 1], f, g);
    }
  }

  // ----- looking up and adding -----

  /** Where a key is, or the length if it is not there. */
  function Find(d: Dict, k: Pair): (i: nat)
    ensures i <= |d| && (i < |d| ==> d[i].0 == k)
    ensures forall j :: 0 <= j < i ==> d[j].0 != k
  {
    if d == [] || d[0].0 == k then 0 else 1 + Find(d[1..], k)
  }

  /** `out[k] += v` with 0 for a missing key. */
  function AddAt(d: Dict, k: Pair, v: real): Dict {
    var i := Find(d, k);
    if i < |d| then d[i := (k, d[i].1 + v)] else d + [(k, v)]
  }

  lemma AddAtDistinct(d: Dict, k: Pair, v: real)
    requires Distinct(d)
    ensures Distinct(AddAt(d, k, v))
  {
  }

  lemma AddAtLin(d: Dict, k: Pair, v: real, f: Pair -> real)
    ensures Lin(AddAt(d, k, v), f) == Lin(d, f) + Mul(v, f(k))
  {
    var i := Find(d, k);
    if i < |d| {
      UpdateLin(d, i, d[i].1 + v, f);
      MulFacts(d[i].1, v, f(k));
    } else {
      LinStep(d, (k, v), f);
    }
  }

  lemma {:induction false} UpdateLin(d: Dict, i: nat, w: real, f: Pair -> real)
    requires i < |d|
    ensures Lin(d[i := (d[i].0, w)], f) == Lin(d, f) - Mul(d[i].1, f(d[i].0)) + Mul(w, f(d[i].0))
    decreases |d|
  {
    var n := |d| - 1;
    var d' := d[i := (d[i].0, w)];
    if i < n {
      UpdateLin(d[..n], i, w, f);
      assert d'[..n] == d[..n][i := (d[i].0, w)];
    } else {
      assert d'[..n] == d[..n];
    }
  }

  /** Without the zero entries. */
  function NonZeros(d: Dict): (r: Dict)
    ensures NoZero(r)
    ensures forall i :: 0 <= i < |r| ==> r[i] in d
  {
    if d == [] then [] else NonZeros(d[..|d| - 1]) + (if d[|d| - 1].1 != 0.0 then [d[|d| - 1]] else [])
  }

  lemma {:induction false} NonZerosLin(d: Dict, f: Pair -> real)
    ensures Lin(NonZeros(d), f) == Lin(d, f)
    decreases |d|
  {
    if d != [] {
      NonZerosLin(d[..|d| - 1], f);
      LinStep(NonZeros(d[..|d| - 1]), d[|d| - 1], f);
      if d[|d| - 1].1 == 0.0 {
        assert NonZeros(d) == NonZeros(d[..|d| - 1]);
        MulFacts(f(d[|d| - 1].0), 0.0, 0.0);
      }
    }
  }

  lemma {:induction false} NonZerosDistinct(d: Dict)
    requires Distinct(d)
    ensures Distinct(NonZeros(d))
    decreases |d|
  {
    if d != [] {
      var n := |d| - 1;
      NonZerosDistinct(d[..n]);
      forall i | 0 <= i < |NonZeros(d[..n])|
        ensures NonZeros(d[..n])[i].0 != d[n].0
      {
        var j :| 0 <= j < n && d[j] == NonZeros(d[..n])[i];
      }
    }
  }

  /** In a dictionary without repeated keys and zeros an entry is its key with its coefficient, so
      that the dictionary is determined, up to order, by what it stands for. */
  lemma EntriesAreCoefficients(d: Dict, k: Pair, v: real)
    requires Distinct(d) && NoZero(d)
    ensures (k, v) in d <==> v != 0.0 && Coefficient(d, k) == v
  {
    CoefficientOf(d, k);
    if Find(d, k) < |d| {
      assert d[Find(d, k)] == (k, d[Find(d, k)].1);
    }
  }

  lemma {:induction false} CoefficientOf(d: Dict, k: Pair)
    requires Distinct(d)
    ensures Coefficient(d, k) == if Find(d, k) < |d| then d[Find(d, k)].1 else 0.0
    decreases |d|
  {
    if d != [] {
      var n := |d| - 1;
      CoefficientOf(d[..n], k);
      var i := Find(d, k);
      FindPrefix(d, k);
    }
  }

  lemma {:induction false} FindPrefix(d: Dict, k: Pair)
    requires d != []
    ensures Find(d[..|d| - 1], k) == if Find(d, k) < |d| - 1 then Find(d, k) else |d| - 1
    decreases |d|
  {
    var n := |d| - 1;
    var i, j := Find(d, k), Find(d[..n], k);
    if j < n {
      assert d[..n][j] == d[j];
    }
    if i < n {
      assert d[..n][i] == d[i];
    }
  }

  // ----- the product -----

  /** The weight of j in a product with i, weighed by f. */
  function After(f: Pair -> real, i: Pair): Pair -> real {
    (j: Pair) => f(PairTimes(i, j))
  }

  /** The weight of i in a product with all of b. */
  function Through(b: Dict, f: Pair -> real): Pair -> real {
    (i: Pair) => Lin(b, After(f, i))
  }

  function AddRow(out: Dict, e: (Pair, real), b: Dict): Dict {
    if b == [] then out
    else AddAt(AddRow(out, e, b[..|b| - 1]), PairTimes(e.0, b[|b| - 1].0), Mul(e.1, b[|b| - 1].1))
  }

  /** All products of an entry of a with one of b, added up. */
  function Product(a: Dict, b: Dict): Dict {
    if a == [] then [] else AddRow(Product(a[..|a| - 1], b), a[|a| - 1], b)
  }

  lemma {:induction false} AddRowLin(out: Dict, e: (Pair, real), b: Dict, f: Pair -> real)
    ensures Lin(AddRow(out, e, b), f) == Lin(out, f) + Mul(e.1, Lin(b, After(f, e.0)))
    decreases |b|
  {
    if b != [] {
      var b', x := b[..|b| - 1], b[|b| - 1];
      AddRowLin(out, e, b', f);
      AddAtLin(AddRow(out, e, b'), PairTimes(e.0, x.0), Mul(e.1, x.1), f);
      LinLast(b, After(f, e.0));
      hide Lin, PairTimes, Mul;
      MulFacts(e.1, Lin(b', After(f, e.0)), Mul(x.1, f(PairTimes(e.0, x.0))));
      MulFacts(e.1, x.1, f(PairTimes(e.0, x.0)));
    }
  }

  lemma LinLast(d: Dict, f: Pair -> real)
    requires d != []
    ensures Lin(d, f) == Lin(d[..|d| - 1], f) + Mul(d[|d| - 1].1, f(d[|d| - 1].0))
  {
  }

  /** The product stands for the product: it is bilinear in what its factors stand for. */
  lemma {:induction false} ProductLin(a: Dict, b: Dict, f: Pair -> real)
    ensures Lin(Product(a, b), f) == Lin(a, Through(b, f))
    decreases |a|
  {
    if a != [] {
      var a', e := a[..|a| - 1], a[|a| - 1];
      ProductLin(a', b, f);
      LinLast(a, Through(b, f));
      hide Lin, PairTimes, AddRow, After, Mul;
      assert Through(b, f)(e.0) == Lin(b, After(f, e.0));
      AddRowLin(Product(a', b), e, b, f);
    }
  }

  lemma {:induction false} AddRowDistinct(out: Dict, e: (Pair, real), b: Dict)
    requires Distinct(out)
    ensures Distinct(AddRow(out, e, b))
    decreases |b|
  {
    if b != [] {
      AddRowDistinct(out, e, b[..|b| - 1]);
      AddAtDistinct(AddRow(out, e, b[..|b| - 1]), PairTimes(e.0, b[|b| - 1].0), Mul(e.1, b[|b| - 1].1));
    }
  }

  lemma {:induction false} ProductDistinct(a: Dict, b: Dict)
    ensures Distinct(Product(a, b))
    decreases |a|
  {
    if a != [] {
      ProductDistinct(a[..|a| - 1], b);
      AddRowDistinct(Product(a[..|a| - 1], b), a[|a| - 1], b);
    }
  }

  /** `_concat_product`. */
  function ConcatProduct(a: Dict, b: Dict): Dict {
    NonZeros(Product(a, b))
  }

  lemma ConcatProductLin(a: Dict, b: Dict, f: Pair -> real)
    ensures Lin(ConcatProduct(a, b), f) == Lin(a, Through(b, f))
  {
    NonZerosLin(Product(a, b), f);
    ProductLin(a, b, f);
  }

  lemma ConcatProductCanonical(a: Dict, b: Dict)
    ensures Distinct(ConcatProduct(a, b)) && NoZero(ConcatProduct(a, b))
  {
    ProductDistinct(a, b);
    NonZerosDistinct(Product(a, b));
  }

  /** The product is associative. */
  lemma ConcatProductAssociates(a: Dict, b: Dict, c: Dict, f: Pair -> real)
    ensures Lin(ConcatProduct(ConcatProduct(a, b), c), f) == Lin(ConcatProduct(a, ConcatProduct(b, c)), f)
  {
    var g := Through(c, f);
    ConcatProductLin(ConcatProduct(a, b), c, f);
    ConcatProductLin(a, b, g);
    ConcatProductLin(a, ConcatProduct(b, c), f);
    forall i: Pair
      ensures Through(b, g)(i) == Through(ConcatProduct(b, c), f)(i)
    {
      InnerAssociates(b, c, f, i);
    }
    LinSame(a, Through(b, g), Through(ConcatProduct(b, c), f));
  }

  lemma InnerAssociates(b: Dict, c: Dict, f: Pair -> real, i: Pair)
    ensures Lin(b, After(Through(c, f), i)) == Lin(ConcatProduct(b, c), After(f, i))
  {
    ConcatProductLin(b, c, After(f, i));
    forall j: Pair
      ensures After(Through(c, f), i)(j) == Through(c, After(f, i))(j)
    {
      forall l: Pair
        ensures After(f, PairTimes(i, j))(l) == After(After(f, i), j)(l)
      {
        PairTimesAssociates(i, j, l);
      }
      LinSame(c, After(f, PairTimes(i, j)), After(After(f, i), j));
    }
    LinSame(b, After(Through(c, f), i), Through(c, After(f, i)));
  }
}
