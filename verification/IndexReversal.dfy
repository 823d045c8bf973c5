/** `split_index` and `reverse_index`: reversing a word through its index. */
module IndexReversal {
  import opened Words

  /** The index of the reversed word. */
  function ReverseIndex(degree: nat, width: nat, index: nat): nat
    requires width > 0
  {
    Horner(width, Reversed(Digits(width, degree, index)))
  }

  /** Quotient and remainder, computed without a remainder operation. */
  method SplitIndex(at: nat, left: nat) returns (div: nat, right: nat)
    requires at > 0
    ensures left == div * at + right && right < at
    ensures div == left / at && right == left % at
  {
    div := left / at;
    assert left == div * at + left % at;
    right := left - div * at;
  }

  method ReverseIndexLoop(degree: nat, width: nat, index: nat) returns (result: nat)
    requires width > 0
    ensures result == ReverseIndex(degree, width, index)
  {
    result := 0;
    var rest := index;
    ghost var low: seq<nat> := [];
    for i := 0 to degree
      invariant |low| == i && result == Horner(width, Reversed(low))
      invariant Digits(width, degree, index) == Digits(width, degree - i, rest) + low
    {
      var rem;
      result := result * width;
      ghost var before := rest;
      rest, rem := SplitIndex(width, rest);
      result := result + rem;
      assert Digits(width, degree - i, before) == Digits(width, degree - i - 1, rest) + [rem];
      HornerStep(width, Reversed(low), rem);
      assert ([rem] + low)[1..] == low;
      low := [rem] + low;
    }
    assert Digits(width, degree, index) == low;
  }

  /** On the indices of words of its length it is an involution, so a bijection. */
  lemma ReverseIsInvolution(degree: nat, width: nat, index: nat)
    requires width > 0 && index < Power(width, degree)
    ensures ReverseIndex(degree, width, index) < Power(width, degree)
    ensures ReverseIndex(degree, width, ReverseIndex(degree, width, index)) == index
  {
    var s := Digits(width, degree, index);
    DigitsAreDigits(width, degree, index);
    ReversedDigits(width, s);
    HornerBelow(width, Reversed(s));
    DigitsOfHorner(width, Reversed(s));
    ReversedTwice(s);
    HornerOfDigits(width, degree, index);
  }

  /** It takes the index of a word to that of the reversed word. */
  lemma ReverseReversesWords(width: nat, s: seq<nat>)
    requires width > 0 && AllDigits(width, s)
    ensures ReverseIndex(|s|, width, Horner(width, s)) == Horner(width, Reversed(s))
  {
    DigitsOfHorner(width, s);
  }

  // ----- tiles -----

  /** Where the word made of the words with indices x, m and y has its index. */
  function Address(width: nat, midDegree: nat, tile: nat, x: nat, m: nat, y: nat): nat {
    (x * Power(width, midDegree) + m) * Power(width, tile) + y
  }

  lemma AddressOfWords(width: nat, a: seq<nat>, b: seq<nat>, c: seq<nat>)
    ensures Address(width, |b|, |c|, Horner(width, a), Horner(width, b), Horner(width, c)) == Horner(width, a + b + c)
  {
    HornerConcat(width, a, b);
    HornerConcat(width, a + b, c);
  }

  ghost predicate InTiles(width: nat, midDegree: nat, tile: nat, x: nat, m: nat, y: nat) {
    x < Power(width, tile) && m < Power(width, midDegree) && y < Power(width, tile)
  }

  /** The tiled address of (x, m, y) is an index of the level, and reverses to that of the
      reversed parts in the opposite order. */
  lemma AddressReverses(width: nat, midDegree: nat, tile: nat, x: nat, m: nat, y: nat)
    requires width > 0 && InTiles(width, midDegree, tile, x, m, y)
    ensures Address(width, midDegree, tile, x, m, y) < Power(width, midDegree + 2 * tile)
    ensures ReverseIndex(midDegree + 2 * tile, width, Address(width, midDegree, tile, x, m, y))
         == Address(width, midDegree, tile, ReverseIndex(tile, width, y), ReverseIndex(midDegree, width, m),
                    ReverseIndex(tile, width, x))
  {
    hide Address, Horner, Power;
    var a, b, c := Digits(width, tile, x), Digits(width, midDegree, m), Digits(width, tile, y);
    AddressIsWord(width, midDegree, tile, x, m, y);
    HornerBelow(width, a + b + c);
    ReverseReversesWords(width, a + b + c);
    ReversedConcat(a + b, c);
    ReversedConcat(a, b);
    assert Reversed(c) + (Reversed(b) + Reversed(a)) == Reversed(c) + Reversed(b) + Reversed(a);
    AddressOfWords(width, Reversed(c), Reversed(b), Reversed(a));
  }

  lemma AddressIsWord(width: nat, midDegree: nat, tile: nat, x: nat, m: nat, y: nat)
    requires width > 0 && InTiles(width, midDegree, tile, x, m, y)
    ensures var a, b, c := Digits(width, tile, x), Digits(width, midDegree, m), Digits(width, tile, y);
            && AllDigits(width, a + b + c) && |a + b + c| == midDegree + 2 * tile
            && Horner(width, a + b + c) == Address(width, midDegree, tile, x, m, y)
  {
    var a, b, c := Digits(width, tile, x), Digits(width, midDegree, m), Digits(width, tile, y);
    DigitsAreDigits(width, tile, x);
    DigitsAreDigits(width, midDegree, m);
    DigitsAreDigits(width, tile, y);
    HornerOfDigits(width, tile, x);
    HornerOfDigits(width, midDegree, m);
    HornerOfDigits(width, tile, y);
    AddressOfWords(width, a, b, c);
  }

  /** Every index of the level is the address of exactly one place in the tiles. */
  lemma PlaceOf(width: nat, midDegree: nat, tile: nat, index: nat) returns (x: nat, m: nat, y: nat)
    requires width > 0 && index < Power(width, midDegree + 2 * tile)
    ensures InTiles(width, midDegree, tile, x, m, y) && Address(width, midDegree, tile, x, m, y) == index
  {
    hide Address, Horner, Power, Digits;
    var s := Digits(width, midDegree + 2 * tile, index);
    DigitsAreDigits(width, midDegree + 2 * tile, index);
    HornerOfDigits(width, midDegree + 2 * tile, index);
    var a, b, c := s[..tile], s[tile..tile + midDegree], s[tile + midDegree..];
    assert s == a + b + c;
    HornerBelow(width, a);
    HornerBelow(width, b);
    HornerBelow(width, c);
    AddressOfWords(width, a, b, c);
    x, m, y := Horner(width, a), Horner(width, b), Horner(width, c);
  }

  lemma AddressInjective(width: nat, midDegree: nat, tile: nat, x: nat, m: nat, y: nat, x': nat, m': nat, y': nat)
    requires width > 0 && InTiles(width, midDegree, tile, x, m, y) && InTiles(width, midDegree, tile, x', m', y')
    requires Address(width, midDegree, tile, x, m, y) == Address(width, midDegree, tile, x', m', y')
    ensures x == x' && m == m' && y == y'
  {
    var p, t := Power(width, midDegree), Power(width, tile);
    SameAddress(p, t, x, m, y, x', m', y');
  }

  lemma SameAddress(p: nat, t: nat, x: nat, m: nat, y: nat, x': nat, m': nat, y': nat)
    requires y < t && y' < t && m < p && m' < p && (x * p + m) * t + y == (x' * p + m') * t + y'
    ensures x == x' && m == m' && y == y'
  {
    SameParts(x * p + m, x' * p + m', t, y, y');
    SameParts(x, x', p, m, m');
  }

  lemma SameParts(q: nat, q': nat, t: nat, y: nat, y': nat)
    requires y < t && y' < t && q * t + y == q' * t + y'
    ensures q == q' && y == y'
  {
    QuotientOf(q, t, y);
    QuotientOf(q', t, y');
  }
}
