/** The unshuffle coproduct of a word, and the arithmetic of sums of pairs of words. */
module Coproduct {
  import opened Words
  import opened TensorDicts

  class TensorTensorProduct {
    var data: Dict

    constructor (data: Dict)
      ensures this.data == NonZeros(data)
    {
      this.data := NonZeros(data);
    }

    /** `__mul__` with a scalar. */
    method ScaledBy(scalar: real) returns (result: TensorTensorProduct)
      ensures fresh(result) && NoZero(result.data) && (Distinct(data) ==> Distinct(result.data))
      ensures forall f: Pair -> real :: Lin(result.data, f) == Mul(scalar, Lin(data, f))
    {
      var scaled := Scaled(data, scalar);
      ScaledDistinct(data, scalar);
      if Distinct(data) {
        NonZerosDistinct(scaled);
      }
      result := new TensorTensorProduct(if scalar == 0.0 then [] else scaled);
      forall f: Pair -> real
        ensures Lin(result.data, f) == Mul(scalar, Lin(data, f))
      {
        ScaledLin(data, scalar, f);
        NonZerosLin(scaled, f);
        MulFacts(Lin(data, f), 0.0, 0.0);
      }
    }

    /** `__add__`. */
    method Plus(other: TensorTensorProduct) returns (result: TensorTensorProduct)
      ensures fresh(result) && NoZero(result.data) && Distinct(result.data)
      ensures forall f: Pair -> real :: Lin(result.data, f) == Lin(data, f) + Lin(other.data, f)
    {
      var sum := AddAll([], data, 1.0);
      sum := AddAll(sum, other.data, 1.0);
      result := new TensorTensorProduct(NonZeros(sum));
      NonZerosTwice(sum);
      AddAllDistinct([], data, 1.0);
      AddAllDistinct(AddAll([], data, 1.0), other.data, 1.0);
      NonZerosDistinct(sum);
      forall f: Pair -> real
        ensures Lin(result.data, f) == Lin(data, f) + Lin(other.data, f)
      {
        AddAllLin([], data, 1.0, f);
        AddAllLin(AddAll([], data, 1.0), other.data, 1.0, f);
        NonZerosLin(sum, f);
        MulFacts(Lin(data, f), 0.0, 0.0);
        MulFacts(Lin(other.data, f), 0.0, 0.0);
      }
    }

    /** `add_scal_prod`, which changes the sum in place. */
    method AddScalProd(other: TensorTensorProduct, scalar: real)
      modifies this
      ensures NoZero(data) && (old(Distinct(data)) ==> Distinct(data))
      ensures data == NonZeros(AddAll(old(data), old(other.data), scalar))
      ensures forall f: Pair -> real :: Lin(data, f) == Lin(old(data), f) + Mul(scalar, Lin(old(other.data), f))
    {
      var items := other.data;
      ghost var before := data;
      for i := 0 to |items|
        invariant data == AddAll(before, items[..i], scalar)
      {
        var val := Mul(items[i].1, scalar);
        assert items[..i + 1][..i] == items[..i];
        data := AddAt(data, items[i].0, val);
      }
      assert items[..|items|] == items;
      data := NonZeros(data);
      if Distinct(before) {
        AddAllDistinct(before, items, scalar);
        NonZerosDistinct(AddAll(before, items, scalar));
      }
      forall f: Pair -> real
        ensures Lin(data, f) == Lin(before, f) + Mul(scalar, Lin(items, f))
      {
        AddAllLin(before, items, scalar, f);
        NonZerosLin(AddAll(before, items, scalar), f);
      }
    }
  }

  /** `_concat_product`. */
  method Concatenated(a: TensorTensorProduct, b: TensorTensorProduct) returns (result: TensorTensorProduct)
    ensures fresh(result) && result.data == ConcatProduct(a.data, b.data)
  {
    var out: Dict := [];
    for i := 0 to |a.data|
      invariant out == Product(a.data[..i], b.data)
    {
      var (k1, v1) := a.data[i];
      ghost var row := out;
      for j := 0 to |b.data|
        invariant out == AddRow(row, a.data[i], b.data[..j])
      {
        var (k2, v2) := b.data[j];
        assert b.data[..j + 1][..j] == b.data[..j];
        out := AddAt(out, PairTimes(k1, k2), Mul(v1, v2));
      }
      assert b.data[..|b.data|] == b.data;
      assert a.data[..i + 1][..i] == a.data[..i];
    }
    assert a.data[..|a.data|] == a.data;
    result := new TensorTensorProduct(NonZeros(out));
    NonZerosTwice(out);
  }

  lemma {:induction false} NonZerosKeeps(d: Dict)
    requires NoZero(d)
    ensures NonZeros(d) == d
    decreases |d|
  {
    if d != [] {
      var n := |d| - 1;
      assert d[n].1 != 0.0;
      NonZerosKeeps(d[..n]);
      assert d == d[..n] + [d[n]];
      hide NoZero;
    }
  }

  lemma NonZerosTwice(d: Dict)
    ensures NonZeros(NonZeros(d)) == NonZeros(d)
  {
    NonZerosKeeps(NonZeros(d));
  }

  // ----- sums and multiples -----

  function Scaled(d: Dict, s: real): (r: Dict)
    ensures |r| == |d| && forall i :: 0 <= i < |d| ==> r[i].0 == d[i].0
  {
    if d == [] then [] else Scaled(d[..|d| - 1], s) + [(d[|d| - 1].0, Mul(d[|d| - 1].1, s))]
  }

  lemma ScaledDistinct(d: Dict, s: real)
    ensures Distinct(d) ==> Distinct(Scaled(d, s))
  {
  }

  lemma {:induction false} ScaledLin(d: Dict, s: real, f: Pair -> real)
    ensures Lin(Scaled(d, s), f) == Mul(s, Lin(d, f))
    decreases |d|
  {
    if d != [] {
      var d', e := d[..|d| - 1], d[|d| - 1];
      ScaledLin(d', s, f);
      LinStep(Scaled(d', s), (e.0, Mul(e.1, s)), f);
      LinLast(d, f);
      hide Lin, Mul;
      MulFacts(s, Lin(d', f), Mul(e.1, f(e.0)));
      MulFacts(e.1, s, f(e.0));
    } else {
      MulFacts(s, 0.0, 0.0);
    }
  }

  function AddAll(d: Dict, other: Dict, s: real): Dict {
    if other == [] then d
    else AddAt(AddAll(d, other[..|other| - 1], s), other[|other| - 1].0, Mul(other[|other| - 1].1, s))
  }

  lemma {:induction false} AddAllDistinct(d: Dict, other: Dict, s: real)
    requires Distinct(d)
    ensures Distinct(AddAll(d, other, s))
    decreases |other|
  {
    if other != [] {
      AddAllDistinct(d, other[..|other| - 1], s);
      AddAtDistinct(AddAll(d, other[..|other| - 1], s), other[|other| - 1].0, Mul(other[|other| - 1].1, s));
    }
  }

  lemma {:induction false} AddAllLin(d: Dict, other: Dict, s: real, f: Pair -> real)
    ensures Lin(AddAll(d, other, s), f) == Lin(d, f) + Mul(s, Lin(other, f))
    decreases |other|
  {
    if other != [] {
      var other', e := other[..|other| - 1], other[|other| - 1];
      AddAllLin(d, other', s, f);
      AddAtLin(AddAll(d, other', s), e.0, Mul(e.1, s), f);
      LinLast(other, f);
      hide Lin, Mul;
      MulFacts(s, Lin(other', f), Mul(e.1, f(e.0)));
      MulFacts(e.1, s, f(e.0));
    } else {
      MulFacts(s, 0.0, 0.0);
    }
  }

  // ----- the coproduct of a word -----

  /** A letter on one side. */
  function Sided(l: nat, side: bool): Pair {
    if side then ([l], []) else ([], [l])
  }

  function LetterAdjoint(l: nat): Dict {
    [(Sided(l, true), 1.0), (Sided(l, false), 1.0)]
  }

  function Unit(): Dict {
    [(([], []), 1.0)]
  }

  /** The reduction from the left over the letters. */
  function Adjoint(word: Word): Dict {
    if word == [] then Unit()
    else if |word| == 1 then LetterAdjoint(word[0])
    else ConcatProduct(Adjoint(word[..|word| - 1]), LetterAdjoint(word[|word| - 1]))
  }

  /** `_adjoint_of_word`. */
  method AdjointOfWord(word: Word) returns (result: TensorTensorProduct)
    ensures fresh(result) && result.data == Adjoint(word)
  {
    hide NonZeros, ConcatProduct, Adjoint, LetterAdjoint, Unit;
    if word == [] {
      result := new TensorTensorProduct(Unit());
      AdjointStarts(word);
      return;
    }
    result := new TensorTensorProduct(LetterAdjoint(word[0]));
    AdjointStarts(word[..1]);
    for i := 1 to |word|
      invariant fresh(result) && result.data == Adjoint(word[..i])
    {
      var letter := new TensorTensorProduct(LetterAdjoint(word[i]));
      AdjointGoesOn(word, i);
      result := Concatenated(result, letter);
    }
    assert word[..|word|] == word;
  }

  lemma AdjointStarts(word: Word)
    requires |word| <= 1
    ensures Adjoint(word) == if word == [] then NonZeros(Unit()) else NonZeros(LetterAdjoint(word[0]))
  {
    hide NonZeros;
    if word == [] {
      NonZerosKeeps(Unit());
    } else {
      NonZerosKeeps(LetterAdjoint(word[0]));
    }
  }

  lemma AdjointGoesOn(word: Word, i: nat)
    requires 1 <= i < |word|
    ensures Adjoint(word[..i + 1]) == ConcatProduct(Adjoint(word[..i]), NonZeros(LetterAdjoint(word[i])))
  {
    hide ConcatProduct;
    NonZerosKeeps(LetterAdjoint(word[i]));
    assert word[..i + 1][..i] == word[..i];
  }

  // ----- choices of positions -----

  /** The letters at the chosen positions, multiplied up as keys in the order of the word. */
  function Chosen(word: Word, mask: seq<bool>, side: bool): Word
    requires |mask| == |word|
  {
    if word == [] then []
    else
      var n := |word| - 1;
      KeyTimes(Chosen(word[..n], mask[..n], side), if mask[n] == side then [word[n]] else [])
  }

  function PairOf(word: Word, mask: seq<bool>): Pair
    requires |mask| == |word|
  {
    (Chosen(word, mask, true), Chosen(word, mask, false))
  }

  /** All choices of positions. */
  function Masks(n: nat): (r: seq<seq<bool>>)
    ensures forall i :: 0 <= i < |r| ==> |r[i]| == n
  {
    if n == 0 then [[]] else Extended(Masks(n - 1), true) + Extended(Masks(n - 1), false)
  }

  function Extended(masks: seq<seq<bool>>, side: bool): (r: seq<seq<bool>>)
    ensures |r| == |masks| && forall i :: 0 <= i < |r| ==> r[i] == masks[i] + [side]
  {
    seq(|masks|, i requires 0 <= i < |masks| => masks[i] + [side])
  }

  /** Every choice is there once. */
  lemma {:induction false} MasksComplete(n: nat, mask: seq<bool>) returns (i: nat)
    requires |mask| == n
    ensures i < |Masks(n)| && Masks(n)[i] == mask
    ensures forall j :: 0 <= j < |Masks(n)| && j != i ==> Masks(n)[j] != mask
    decreases n
  {
    if n == 0 {
      i := 0;
    } else {
      var side := mask[n - 1];
      var at := MasksComplete(n - 1, mask[..n - 1]);
      var before := Masks(n - 1);
      i := if side then at else |before| + at;
      assert mask == mask[..n - 1] + [side];
      forall j | 0 <= j < |Masks(n)| && j != i
        ensures Masks(n)[j] != mask
      {
        var k := if j < |before| then j else j - |before|;
        assert Masks(n)[j] == before[k] + [j < |before|];
        if Masks(n)[j] == mask {
          LastAndRest(before[k], j < |before|, mask[..n - 1], side);
        }
      }
    }
  }

  lemma LastAndRest(a: seq<bool>, x: bool, b: seq<bool>, y: bool)
    requires a + [x] == b + [y]
    ensures a == b && x == y
  {
    assert |a| == |b|;
    assert a == (a + [x])[..|a|] && b == (b + [y])[..|b|];
    assert x == (a + [x])[|a|] && y == (b + [y])[|b|];
  }

  lemma {:induction false} MasksCount(n: nat)
    ensures |Masks(n)| == Power(2, n)
    decreases n
  {
    if n > 0 {
      MasksCount(n - 1);
    }
  }

  /** The sum of the weights of all choices. */
  function SumOver(word: Word, masks: seq<seq<bool>>, f: Pair -> real): real
    requires forall i :: 0 <= i < |masks| ==> |masks[i]| == |word|
  {
    if masks == [] then 0.0 else SumOver(word, masks[..|masks| - 1], f) + f(PairOf(word, masks[|masks| - 1]))
  }

  lemma {:induction false} SumConcat(word: Word, a: seq<seq<bool>>, b: seq<seq<bool>>, f: Pair -> real)
    requires forall i :: 0 <= i < |a| ==> |a[i]| == |word|
    requires forall i :: 0 <= i < |b| ==> |b[i]| == |word|
    ensures SumOver(word, a + b, f) == SumOver(word, a, f) + SumOver(word, b, f)
    decreases |b|
  {
    if b == [] {
      assert a + b == a;
    } else {
      SumConcat(word, a, b[..|b| - 1], f);
      assert (a + b)[..|a + b| - 1] == a + b[..|b| - 1];
    }
  }

  /** The weight of a pair once one more letter has been put on one of its sides. */
  function AfterLetter(f: Pair -> real, l: nat, side: bool): Pair -> real {
    (i: Pair) => f(PairTimes(i, Sided(l, side)))
  }

  lemma {:induction false} SumExtended(word: Word, masks: seq<seq<bool>>, side: bool, f: Pair -> real)
    requires word != [] && forall i :: 0 <= i < |masks| ==> |masks[i]| == |word| - 1
    ensures SumOver(word, Extended(masks, side), f)
         == SumOver(word[..|word| - 1], masks, AfterLetter(f, word[|word| - 1], side))
    decreases |masks|
  {
    if masks != [] {
      var rest, last := masks[..|masks| - 1], masks[|masks| - 1];
      SumExtended(word, rest, side, f);
      assert Extended(masks, side)[..|masks| - 1] == Extended(rest, side);
      PairOfExtended(word, last, side);
      assert Extended(masks, side)[|masks| - 1] == last + [side];
      hide PairOf, PairTimes, Sided;
    }
  }

  lemma PairOfExtended(word: Word, mask: seq<bool>, side: bool)
    requires |word| == |mask| + 1
    ensures PairOf(word, mask + [side]) == PairTimes(PairOf(word[..|mask|], mask), Sided(word[|mask|], side))
  {
    assert (mask + [side])[..|mask|] == mask;
  }

  /** The coproduct of a word is the sum over all choices of positions. */
  lemma {:induction false} AdjointSums(word: Word, f: Pair -> real)
    ensures Lin(Adjoint(word), f) == SumOver(word, Masks(|word|), f)
    decreases |word|
  {
    hide Lin, SumOver, Masks, AfterLetter;
    if word == [] {
      UnitSum(f);
    } else {
      var n := |word| - 1;
      hide Adjoint;
      AdjointStep(word, f);
      MasksStep(word, f);
      AdjointSums(word[..n], AfterLetter(f, word[n], true));
      AdjointSums(word[..n], AfterLetter(f, word[n], false));
    }
  }

  lemma UnitSum(f: Pair -> real)
    ensures Lin(Unit(), f) == SumOver([], Masks(0), f)
  {
    UnitLin(f);
    assert Masks(0)[..0] == [];
  }

  lemma MasksStep(word: Word, f: Pair -> real)
    requires word != []
    ensures var n := |word| - 1;
            SumOver(word, Masks(|word|), f)
              == SumOver(word[..n], Masks(n), AfterLetter(f, word[n], true))
                  + SumOver(word[..n], Masks(n), AfterLetter(f, word[n], false))
  {
    var n := |word| - 1;
    SumConcat(word, Extended(Masks(n), true), Extended(Masks(n), false), f);
    SumExtended(word, Masks(n), true, f);
    SumExtended(word, Masks(n), false, f);
  }

  lemma AdjointStep(word: Word, f: Pair -> real)
    requires word != []
    ensures var n := |word| - 1;
            Lin(Adjoint(word), f)
              == Lin(Adjoint(word[..n]), AfterLetter(f, word[n], true))
                  + Lin(Adjoint(word[..n]), AfterLetter(f, word[n], false))
  {
    var n := |word| - 1;
    hide Lin, AfterLetter, LetterAdjoint, ConcatProduct;
    if n == 0 {
      FirstLetter(word[n], f);
    } else {
      ConcatProductLin(Adjoint(word[..n]), LetterAdjoint(word[n]), f);
      LastLetter(Adjoint(word[..n]), word[n], f);
    }
  }

  lemma UnitLin(f: Pair -> real)
    ensures Lin(Unit(), f) == f(([], []))
  {
    LinStep([], (([], []), 1.0), f);
    MulFacts(f(([], [])), 0.0, 0.0);
  }

  lemma LetterLin(l: nat, f: Pair -> real)
    ensures Lin(LetterAdjoint(l), f) == f(Sided(l, true)) + f(Sided(l, false))
  {
    hide Sided;
    LinStep([], (Sided(l, true), 1.0), f);
    LinStep([(Sided(l, true), 1.0)], (Sided(l, false), 1.0), f);
    assert [] + [(Sided(l, true), 1.0)] == [(Sided(l, true), 1.0)];
    MulFacts(f(Sided(l, true)), 0.0, 0.0);
    MulFacts(f(Sided(l, false)), 0.0, 0.0);
  }

  lemma UnitTimes(k: Pair)
    ensures PairTimes(([], []), k) == k
  {
    assert k.0 + [] == k.0 && k.1 + [] == k.1;
  }

  lemma FirstLetter(l: nat, f: Pair -> real)
    ensures Lin(LetterAdjoint(l), f) == Lin(Unit(), AfterLetter(f, l, true)) + Lin(Unit(), AfterLetter(f, l, false))
  {
    LetterLin(l, f);
    UnitLin(AfterLetter(f, l, true));
    UnitLin(AfterLetter(f, l, false));
    UnitTimes(Sided(l, true));
    UnitTimes(Sided(l, false));
    hide Lin, PairTimes, Unit, LetterAdjoint, Sided;
  }

  lemma OneMore(v: real, i: Pair, l: nat, f: Pair -> real)
    ensures Mul(v, Through(LetterAdjoint(l), f)(i)) == Mul(v, AfterLetter(f, l, true)(i))
            + Mul(v, AfterLetter(f, l, false)(i))
  {
    LetterLin(l, After(f, i));
    hide Lin, Mul, PairTimes, LetterAdjoint, Sided;
    MulFacts(v, f(PairTimes(i, Sided(l, true))), f(PairTimes(i, Sided(l, false))));
  }

  lemma {:induction false} LastLetter(d: Dict, l: nat, f: Pair -> real)
    ensures Lin(d, Through(LetterAdjoint(l), f)) == Lin(d, AfterLetter(f, l, true)) + Lin(d, AfterLetter(f, l, false))
    decreases |d|
  {
    if d != [] {
      LastLetter(d[..|d| - 1], l, f);
      OneMore(d[|d| - 1].1, d[|d| - 1].0, l, f);
      LinLast(d, Through(LetterAdjoint(l), f));
      LinLast(d, AfterLetter(f, l, true));
      LinLast(d, AfterLetter(f, l, false));
      hide Lin, Mul, Through, AfterLetter;
    }
  }

  // ----- what follows for the coefficients -----

  /** The number of choices that give a pair. */
  function Choices(word: Word, masks: seq<seq<bool>>, k: Pair): nat
    requires forall i :: 0 <= i < |masks| ==> |masks[i]| == |word|
  {
    if masks == [] then 0
    else Choices(word, masks[..|masks| - 1], k) + (if PairOf(word, masks[|masks| - 1]) == k then 1 else 0)
  }

  lemma {:induction false} SumOfIndicator(word: Word, masks: seq<seq<bool>>, k: Pair)
    requires forall i :: 0 <= i < |masks| ==> |masks[i]| == |word|
    ensures SumOver(word, masks, Indicator(k)) == Choices(word, masks, k) as real
    decreases |masks|
  {
    if masks != [] {
      SumOfIndicator(word, masks[..|masks| - 1], k);
    }
  }

  lemma {:induction false} AdjointCanonical(word: Word)
    ensures Distinct(Adjoint(word)) && NoZero(Adjoint(word))
  {
    if |word| > 1 {
      ConcatProductCanonical(Adjoint(word[..|word| - 1]), LetterAdjoint(word[|word| - 1]));
    } else if |word| == 1 {
      assert LetterAdjoint(word[0])[0].0.0 != LetterAdjoint(word[0])[1].0.0;
    }
  }

  /** An entry of the coproduct: a pair that some choice of positions gives, with the number of
      choices that do. */
  lemma AdjointCounts(word: Word, k: Pair, v: real)
    ensures (k, v) in Adjoint(word) <==>
              Choices(word, Masks(|word|), k) > 0 && v == Choices(word, Masks(|word|), k) as real
  {
    AdjointCanonical(word);
    EntriesAreCoefficients(Adjoint(word), k, v);
    AdjointSums(word, Indicator(k));
    SumOfIndicator(word, Masks(|word|), k);
  }

  function One(): Pair -> real {
    (k: Pair) => 1.0
  }

  lemma {:induction false} SumOfOnes(word: Word, masks: seq<seq<bool>>)
    requires forall i :: 0 <= i < |masks| ==> |masks[i]| == |word|
    ensures SumOver(word, masks, One()) == |masks| as real
    decreases |masks|
  {
    if masks != [] {
      SumOfOnes(word, masks[..|masks| - 1]);
    }
  }

  /** The coefficients add up to 2^n. */
  lemma AdjointTotal(word: Word)
    ensures Lin(Adjoint(word), One()) == Power(2, |word|) as real
  {
    AdjointSums(word, One());
    SumOfOnes(word, Masks(|word|));
    MasksCount(|word|);
  }

  // ----- in which order the letters come out -----

  /** The chosen letters in the order of the word. */
  function Picked(word: Word, mask: seq<bool>, side: bool): Word
    requires |mask| == |word|
  {
    if word == [] then []
    else
      var n := |word| - 1;
      Picked(word[..n], mask[..n], side) + (if mask[n] == side then [word[n]] else [])
  }

  /** As keys multiply the right factor first, the chosen letters come out in reverse. */
  lemma {:induction false} ChosenIsReversed(word: Word, mask: seq<bool>, side: bool)
    requires |mask| == |word|
    ensures Chosen(word, mask, side) == Reversed(Picked(word, mask, side))
    decreases |word|
  {
    if word != [] {
      var n := |word| - 1;
      ChosenIsReversed(word[..n], mask[..n], side);
      ReversedConcat(Picked(word[..n], mask[..n], side), if mask[n] == side then [word[n]] else []);
    }
  }
}
