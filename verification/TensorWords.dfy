/** Tensor words as keys: letters 1..w, in bijective numeration to the base w. */
module TensorWords {
  import opened Wrappers
  import opened Words

  /** The words over the letters 1..w. */
  ghost predicate IsWord(w: nat, s: seq<nat>) {
    forall i :: 0 <= i < |s| ==> 1 <= s[i] <= w
  }

  /** The word behind a key. */
  function Letters(w: nat, key: nat): seq<nat>
    requires w > 0
    decreases key
  {
    if key == 0 then [] else
      QuotientNotMore(key - 1, w);
      Letters(w, (key - 1) / w) + [1 + (key - 1) % w]
  }

  lemma QuotientNotMore(x: nat, w: nat)
    requires w > 0
    ensures x / w <= x
  {
    assert x == (x / w) * w + x % w;
    Multiply(1, w, x / w);
  }

  // ----- the two conversions -----

  method KeyOfLetters(w: nat, letters: seq<nat>) returns (key: nat)
    ensures key == Horner(w, letters)
  {
    key := 0;
    for i := 0 to |letters|
      invariant key == Horner(w, letters[..i])
    {
      assert letters[..i + 1] == letters[..i] + [letters[i]];
      HornerStep(w, letters[..i], letters[i]);
      key := key * w;
      key := key + letters[i];
    }
    assert letters[..|letters|] == letters;
  }

  method ToLetters(w: nat, key: nat) returns (letters: seq<nat>)
    requires w > 0
    ensures letters == Letters(w, key)
  {
    hide Letters, Reversed;
    letters := [];
    var tmp: nat := key;
    NothingTaken(w, key);
    while tmp != 0
      invariant Letters(w, key) == Letters(w, tmp) + Reversed(letters)
      decreases tmp
    {
      ghost var last, rest := tmp, letters;
      tmp := tmp - 1;
      var l: nat := 1 + tmp % w;
      letters := letters + [l];
      tmp := tmp / w;
      LetterTaken(w, last, l, tmp, rest);
    }
    NothingLeft(w, letters);
    letters := Reversed(letters);
  }

  lemma NothingTaken(w: nat, key: nat)
    requires w > 0
    ensures var none: seq<nat> := []; Letters(w, key) == Letters(w, key) + Reversed(none)
  {
  }

  lemma NothingLeft(w: nat, letters: seq<nat>)
    requires w > 0
    ensures Letters(w, 0) + Reversed(letters) == Reversed(letters)
  {
  }

  lemma LetterTaken(w: nat, key: nat, l: nat, front: nat, after: seq<nat>)
    requires w > 0 && key > 0 && l == 1 + (key - 1) % w && front == (key - 1) / w
    ensures front < key
    ensures Letters(w, key) + Reversed(after) == Letters(w, front) + Reversed(after + [l])
  {
    QuotientNotMore(key - 1, w);
    assert Letters(w, key) == Letters(w, front) + [l];
    MoveOver(Letters(w, front), l, after);
  }

  lemma MoveOver(p: seq<nat>, l: nat, after: seq<nat>)
    ensures p + [l] + Reversed(after) == p + Reversed(after + [l])
  {
    ReversedFromTheEnd(after + [l]);
    assert (after + [l])[..|after|] == after;
    hide Reversed;
    assert p + [l] + Reversed(after) == p + ([l] + Reversed(after));
  }

  lemma {:induction false} LettersAreWord(w: nat, key: nat)
    requires w > 0
    ensures IsWord(w, Letters(w, key))
    decreases key
  {
    if key != 0 {
      QuotientNotMore(key - 1, w);
      LettersAreWord(w, (key - 1) / w);
    }
  }

  lemma {:induction false} KeyOfItsLetters(w: nat, key: nat)
    requires w > 0
    ensures Horner(w, Letters(w, key)) == key
    decreases key
  {
    if key != 0 {
      QuotientNotMore(key - 1, w);
      KeyOfItsLetters(w, (key - 1) / w);
      HornerStep(w, Letters(w, (key - 1) / w), 1 + (key - 1) % w);
    }
  }

  lemma {:induction false} LettersOfKey(w: nat, s: seq<nat>)
    requires w > 0 && IsWord(w, s)
    ensures Letters(w, Horner(w, s)) == s
    decreases |s|
  {
    if s != [] {
      var s', l := s[..|s| - 1], s[|s| - 1];
      LettersOfKey(w, s');
      QuotientOf(Horner(w, s'), w, l - 1);
    }
  }

  /** Keys and words over 1..w are the same thing: every number is the key of exactly one word. */
  lemma KeysAreWords(w: nat, key: nat, s: seq<nat>)
    requires w > 0 && IsWord(w, s)
    ensures key == Horner(w, s) <==> s == Letters(w, key)
  {
    KeyOfItsLetters(w, key);
    LettersOfKey(w, s);
  }

  // ----- sizes -----

  /** The number of words of length up to d. */
  function TensorSize(w: nat, d: nat): nat {
    if d == 0 then 1 else 1 + TensorSize(w, d - 1) * w
  }

  /** The table of a context. */
  method TensorSizes(w: nat, depth: nat) returns (sizes: array<nat>)
    requires depth >= 1
    ensures sizes.Length == depth + 1
    ensures forall d :: 0 <= d <= depth ==> sizes[d] == TensorSize(w, d)
  {
    sizes := new nat[1 + depth];
    sizes[0] := 1;
    sizes[1] := 1 + w;
    for i := 1 to depth + 1
      invariant forall d :: 0 <= d < i ==> sizes[d] == TensorSize(w, d)
    {
      sizes[i] := 1 + sizes[i - 1] * w;
    }
  }

  /** Where the words of length d start in the order of keys. */
  function StartOfDegree(w: nat, d: nat): nat {
    if d == 0 then 0 else TensorSize(w, d - 1)
  }

  function Ones(d: nat): seq<nat> {
    seq(d, _ => 1)
  }

  lemma {:induction false} StartIsOnes(w: nat, d: nat)
    ensures Horner(w, Ones(d)) == StartOfDegree(w, d)
    decreases d
  {
    if d > 0 {
      StartIsOnes(w, d - 1);
      assert Ones(d)[..d - 1] == Ones(d - 1);
    }
  }

  /** A word of length d has its key between the start of its degree and that of the next. */
  lemma {:induction false} KeyInDegree(w: nat, s: seq<nat>)
    requires IsWord(w, s)
    ensures StartOfDegree(w, |s|) <= Horner(w, s) < TensorSize(w, |s|)
    decreases |s|
  {
    if s != [] {
      var s' := s[..|s| - 1];
      KeyInDegree(w, s');
      StartStep(w, |s'|);
      Multiply(StartOfDegree(w, |s'|), Horner(w, s'), w);
      Multiply(Horner(w, s') + 1, TensorSize(w, |s'|), w);
      Distribute(Horner(w, s'), 1, w);
    }
  }

  lemma StartStep(w: nat, d: nat)
    ensures StartOfDegree(w, d + 1) == StartOfDegree(w, d) * w + 1
  {
  }

  lemma {:induction false} SizesGrow(w: nat, d: nat, e: nat)
    requires w > 0 && d <= e
    ensures TensorSize(w, d) <= TensorSize(w, e)
    decreases e
  {
    if d < e {
      SizesGrow(w, d, e - 1);
      Multiply(1, w, TensorSize(w, e - 1));
    }
  }

  /** The keys below `tensor_size(d)` are exactly those of the words with at most d letters. */
  lemma SizeCountsWords(w: nat, s: seq<nat>, d: nat)
    requires w > 0 && IsWord(w, s)
    ensures Horner(w, s) < TensorSize(w, d) <==> |s| <= d
  {
    KeyInDegree(w, s);
    if |s| <= d {
      SizesGrow(w, |s|, d);
    } else {
      SizesGrow(w, d, |s| - 1);
    }
  }

  /** The bound that the constructor from an index computes in closed form. */
  lemma {:induction false} SizeClosedForm(w: nat, d: nat)
    requires w >= 2
    ensures TensorSize(w, d) == (Power(w, d + 1) - 1) / (w - 1)
  {
    SizeTimes(w, d);
    QuotientOf(TensorSize(w, d), w - 1, 0);
  }

  lemma {:induction false} SizeTimes(w: nat, d: nat)
    ensures TensorSize(w, d) * (w - 1) == Power(w, d + 1) - 1
    decreases d
  {
    if d == 0 {
      assert Power(w, 1) == Power(w, 0) * w;
    } else {
      SizeTimes(w, d - 1);
      var t := TensorSize(w, d - 1);
      Associate(t, w, w - 1);
      Associate(t, w - 1, w);
      Distribute(t * w, 1, w - 1);
      Distribute(Power(w, d), -1, w);
      assert t * (w - 1) * w == t * (w * (w - 1));
    }
  }

  // ----- order -----

  /** Shorter words first, words of the same length in the order of their first different letters. */
  ghost predicate Shortlex(u: seq<nat>, v: seq<nat>) {
    |u| < |v| || (|u| == |v| && Before(u, v))
  }

  ghost predicate Before(u: seq<nat>, v: seq<nat>)
    requires |u| == |v|
  {
    u != [] && (u[0] < v[0] || (u[0] == v[0] && Before(u[1..], v[1..])))
  }

  lemma {:induction false} BeforeFromTheEnd(u: seq<nat>, v: seq<nat>)
    requires |u| == |v| > 0
    ensures Before(u, v) <==>
              var n := |u| - 1;
              Before(u[..n], v[..n]) || (u[..n] == v[..n] && u[n] < v[n])
    decreases |u|
  {
    var n := |u| - 1;
    if n > 0 {
      BeforeFromTheEnd(u[1..], v[1..]);
      assert u[1..][..n - 1] == u[..n][1..] && v[1..][..n - 1] == v[..n][1..];
      assert u[..n] == [u[0]] + u[..n][1..] && v[..n] == [v[0]] + v[..n][1..];
    }
  }

  lemma {:induction false} SameLengthOrder(w: nat, u: seq<nat>, v: seq<nat>)
    requires w > 0 && IsWord(w, u) && IsWord(w, v) && |u| == |v|
    ensures Horner(w, u) < Horner(w, v) <==> Before(u, v)
    decreases |u|
  {
    if u != [] {
      var n := |u| - 1;
      SameLengthOrder(w, u[..n], v[..n]);
      BeforeFromTheEnd(u, v);
      LettersOfKey(w, u[..n]);
      LettersOfKey(w, v[..n]);
      LastLetterOrder(Horner(w, u[..n]), Horner(w, v[..n]), w, u[n], v[n]);
      hide Letters, Before;
    }
  }

  lemma LastLetterOrder(a: nat, b: nat, w: nat, l: nat, m: nat)
    requires 1 <= l <= w && 1 <= m <= w
    ensures a * w + l < b * w + m <==> a < b || (a == b && l < m)
  {
    Distribute(a, 1, w);
    Distribute(b, 1, w);
    if a < b {
      Multiply(a + 1, b, w);
    } else if b < a {
      Multiply(b + 1, a, w);
    }
  }

  /** The order of keys is shortlex on words. */
  lemma LessIsShortlex(w: nat, u: seq<nat>, v: seq<nat>)
    requires w > 0 && IsWord(w, u) && IsWord(w, v)
    ensures Horner(w, u) < Horner(w, v) <==> Shortlex(u, v)
  {
    if |u| == |v| {
      SameLengthOrder(w, u, v);
    } else if |u| < |v| {
      SizeCountsWords(w, u, |u|);
      SizeCountsWords(w, v, |u|);
    } else {
      SizeCountsWords(w, u, |v|);
      SizeCountsWords(w, v, |v|);
    }
  }

  // ----- children in the basis -----

  /** A key of the basis: its degree and its place among the words of that degree. */
  datatype BasisKey = BasisKey(degree: nat, index: nat)

  function IndexToKey(w: nat, key: nat): BasisKey
    requires w > 0
  {
    KeyAtDegree(w, key);
    BasisKey(|Letters(w, key)|, key - StartOfDegree(w, |Letters(w, key)|))
  }

  function KeyToIndex(w: nat, key: BasisKey): nat {
    StartOfDegree(w, key.degree) + key.index
  }

  lemma KeyAtDegree(w: nat, key: nat)
    requires w > 0
    ensures StartOfDegree(w, |Letters(w, key)|) <= key
  {
    LettersAreWord(w, key);
    KeyOfItsLetters(w, key);
    KeyInDegree(w, Letters(w, key));
  }

  /** `child`: none if it would be too long. */
  function Child(w: nat, depth: nat, lparent: nat, rparent: nat): Option<nat>
    requires w > 0
  {
    var left := IndexToKey(w, lparent);
    var right := IndexToKey(w, rparent);
    var degree := left.degree + right.degree;
    if degree <= depth then Some(KeyToIndex(w, BasisKey(degree, left.index * Power(w, right.degree) + right.index)))
    else None
  }

  lemma StartsAdd(w: nat, a: nat, b: nat)
    ensures StartOfDegree(w, a + b) == StartOfDegree(w, a) * Power(w, b) + StartOfDegree(w, b)
  {
    StartIsOnes(w, a);
    StartIsOnes(w, b);
    StartIsOnes(w, a + b);
    assert Ones(a + b) == Ones(a) + Ones(b);
    HornerConcat(w, Ones(a), Ones(b));
  }

  /** The child of two words is their concatenation, if that is not too long. */
  lemma ChildIsConcatenation(w: nat, depth: nat, u: seq<nat>, v: seq<nat>)
    requires w > 0 && IsWord(w, u) && IsWord(w, v)
    ensures Child(w, depth, Horner(w, u), Horner(w, v))
         == if |u| + |v| <= depth then Some(Horner(w, u + v)) else None
  {
    hide Letters, StartOfDegree, Power, Horner, IndexToKey;
    IndexOfWord(w, u);
    IndexOfWord(w, v);
    HornerConcat(w, u, v);
    StartsAdd(w, |u|, |v|);
    Shifted(Horner(w, u), StartOfDegree(w, |u|), Power(w, |v|));
  }

  lemma IndexOfWord(w: nat, u: seq<nat>)
    requires w > 0 && IsWord(w, u)
    ensures IndexToKey(w, Horner(w, u)).degree == |u|
    ensures IndexToKey(w, Horner(w, u)).index == Horner(w, u) - StartOfDegree(w, |u|)
  {
    LettersOfKey(w, u);
    hide Letters, StartOfDegree, Horner;
  }

  lemma Shifted(a: int, start: int, p: int)
    ensures (a - start) * p == a * p - start * p
  {
  }

  // ----- the product and the reversal of keys -----

  /** `operator*`: both insertions go to the same place, so the word on the right comes first. */
  method Multiplied(w: nat, lhs: nat, rhs: nat) returns (key: nat)
    requires w > 0
    ensures key == Times(w, lhs, rhs)
  {
    var left := ToLetters(w, lhs);
    var right := ToLetters(w, rhs);
    var letters: seq<nat> := [];
    var at := |letters|;
    letters := letters[..at] + left + letters[at..];
    letters := letters[..at] + right + letters[at..];
    assert letters == right + left;
    key := KeyOfLetters(w, letters);
  }

  function Times(w: nat, lhs: nat, rhs: nat): nat
    requires w > 0
  {
    Horner(w, Letters(w, rhs) + Letters(w, lhs))
  }

  method ReversedKey(w: nat, key: nat) returns (r: nat)
    requires w > 0
    ensures r == Reverse(w, key)
  {
    var letters := ToLetters(w, key);
    letters := Reversed(letters);
    r := KeyOfLetters(w, letters);
  }

  function Reverse(w: nat, key: nat): nat
    requires w > 0
  {
    Horner(w, Reversed(Letters(w, key)))
  }

  lemma TimesOfWords(w: nat, u: seq<nat>, v: seq<nat>)
    requires w > 0 && IsWord(w, u) && IsWord(w, v)
    ensures Times(w, Horner(w, u), Horner(w, v)) == Horner(w, v + u)
    ensures Letters(w, Times(w, Horner(w, u), Horner(w, v))) == v + u
  {
    LettersOfKey(w, u);
    LettersOfKey(w, v);
    LettersOfKey(w, v + u);
  }

  function Repeated(z: seq<nat>, n: nat): seq<nat> {
    if n == 0 then [] else z + Repeated(z, n - 1)
  }

  ghost predicate PowersOfOneWord(u: seq<nat>, v: seq<nat>) {
    exists z: seq<nat>, i: nat, j: nat {:trigger Repeated(z, i), Repeated(z, j)} :: u == Repeated(z, i) && v
        == Repeated(z, j)
  }

  lemma {:induction false} RepeatedAdds(z: seq<nat>, i: nat, j: nat)
    ensures Repeated(z, i) + Repeated(z, j) == Repeated(z, i + j)
    decreases i
  {
    if i == 0 {
      assert [] + Repeated(z, j) == Repeated(z, j);
    } else {
      RepeatedAdds(z, i - 1, j);
      assert z + Repeated(z, i - 1) + Repeated(z, j) == z + (Repeated(z, i - 1) + Repeated(z, j));
    }
  }

  /** Words that commute are powers of one word. */
  lemma {:induction false} CommonRoot(u: seq<nat>, v: seq<nat>) returns (z: seq<nat>, i: nat, j: nat)
    requires u + v == v + u
    ensures u == Repeated(z, i) && v == Repeated(z, j)
    decreases |u| + |v|
  {
    if u == [] {
      z, i, j := v, 0, 1;
      assert v + [] == v;
    } else if v == [] {
      z, i, j := u, 1, 0;
      assert u + [] == u;
    } else if |u| <= |v| {
      var rest := CommutingRest(u, v);
      z, i, j := CommonRoot(u, rest);
      RepeatedAdds(z, i, j);
      j := i + j;
    } else {
      var rest := CommutingRest(v, u);
      z, i, j := CommonRoot(rest, v);
      RepeatedAdds(z, j, i);
      i := j + i;
    }
  }

  lemma CommutingRest(u: seq<nat>, v: seq<nat>) returns (rest: seq<nat>)
    requires u + v == v + u && 0 < |u| <= |v|
    ensures v == u + rest && |rest| < |v| && u + rest == rest + u
  {
    rest := v[|u|..];
    assert u == (u + v)[..|u|] == (v + u)[..|u|] == v[..|u|];
    assert v == u + rest;
    assert u + rest == v == (u + v)[|u|..] == (v + u)[|u|..] == rest + u;
  }

  lemma CommuteExactly(u: seq<nat>, v: seq<nat>)
    ensures u + v == v + u <==> PowersOfOneWord(u, v)
  {
    if u + v == v + u {
      var z, i, j := CommonRoot(u, v);
    }
    if PowersOfOneWord(u, v) {
      var z: seq<nat>, i: nat, j: nat :| u == Repeated(z, i) && v == Repeated(z, j);
      RepeatedAdds(z, i, j);
      RepeatedAdds(z, j, i);
    }
  }

  /** The product is the concatenation of its factors in their order exactly for powers of one word. */
  lemma TimesConcatenatesExactly(w: nat, u: seq<nat>, v: seq<nat>)
    requires w > 0 && IsWord(w, u) && IsWord(w, v)
    ensures Times(w, Horner(w, u), Horner(w, v)) == Horner(w, u + v) <==> PowersOfOneWord(u, v)
  {
    TimesOfWords(w, u, v);
    LettersOfKey(w, u + v);
    LettersOfKey(w, v + u);
    CommuteExactly(u, v);
  }

  /** The letters 1 and 2: their product is the word 2 1. */
  lemma OneTimesTwo(w: nat)
    requires w >= 2
    ensures Times(w, Horner(w, [1]), Horner(w, [2])) == Horner(w, [2, 1]) != Horner(w, [1, 2])
  {
    TimesOfWords(w, [1], [2]);
    LettersOfKey(w, [1, 2]);
    LettersOfKey(w, [2, 1]);
    assert [2] + [1] == [2, 1] && [2, 1][0] != [1, 2][0];
  }

  /** The product in numbers: the right factor is moved up by the length of the left one. */
  lemma TimesShifts(w: nat, lhs: nat, rhs: nat)
    requires w > 0
    ensures Times(w, lhs, rhs) == rhs * Power(w, |Letters(w, lhs)|) + lhs
  {
    KeyOfItsLetters(w, lhs);
    KeyOfItsLetters(w, rhs);
    HornerConcat(w, Letters(w, rhs), Letters(w, lhs));
  }

  lemma TimesIsMonoid(w: nat, a: nat, b: nat, c: nat)
    requires w > 0
    ensures Times(w, Times(w, a, b), c) == Times(w, a, Times(w, b, c))
    ensures Times(w, 0, a) == a && Times(w, a, 0) == a
  {
    LettersOfTimes(w, a, b);
    LettersOfTimes(w, b, c);
    assert Letters(w, c) + (Letters(w, b) + Letters(w, a)) == (Letters(w, c) + Letters(w, b)) + Letters(w, a);
    TimesOfNone(w, a);
    hide Letters, Horner;
  }

  lemma LettersOfTimes(w: nat, a: nat, b: nat)
    requires w > 0
    ensures Letters(w, Times(w, a, b)) == Letters(w, b) + Letters(w, a)
  {
    LettersAreWord(w, a);
    LettersAreWord(w, b);
    hide Letters, Horner;
    LettersOfKey(w, Letters(w, b) + Letters(w, a));
  }

  lemma TimesOfNone(w: nat, a: nat)
    requires w > 0
    ensures Times(w, 0, a) == a && Times(w, a, 0) == a
  {
    assert Letters(w, 0) == [];
    hide Letters, Horner;
    KeyOfItsLetters(w, a);
    assert Letters(w, a) + [] == Letters(w, a) && [] + Letters(w, a) == Letters(w, a);
  }

  lemma ReversedWord(w: nat, s: seq<nat>)
    requires IsWord(w, s)
    ensures IsWord(w, Reversed(s))
  {
    forall i | 0 <= i < |s|
      ensures Reversed(s)[i] == s[|s| - 1 - i]
    {
      ReversedAt(s, i);
    }
  }

  lemma ReverseIsAntiAutomorphism(w: nat, a: nat, b: nat)
    requires w > 0
    ensures Reverse(w, Times(w, a, b)) == Times(w, Reverse(w, b), Reverse(w, a))
    ensures Reverse(w, Reverse(w, a)) == a
  {
    hide Letters, Horner;
    var x, y := Letters(w, a), Letters(w, b);
    LettersAreWord(w, a);
    LettersAreWord(w, b);
    LettersOfKey(w, y + x);
    ReversedWord(w, x);
    ReversedWord(w, y);
    LettersOfKey(w, Reversed(x));
    LettersOfKey(w, Reversed(y));
    ReversedConcat(y, x);
    ReversedTwice(x);
    KeyOfItsLetters(w, a);
  }

  /** The letters stay what they are; only their order is turned round. */
  lemma LettersOfReverse(w: nat, key: nat, i: nat)
    requires w > 0 && i < |Letters(w, key)|
    ensures |Letters(w, Reverse(w, key))| == |Letters(w, key)|
    ensures Letters(w, Reverse(w, key))[i] == Letters(w, key)[|Letters(w, key)| - 1 - i]
  {
    hide Letters, Horner;
    var s := Letters(w, key);
    LettersAreWord(w, key);
    ReversedWord(w, s);
    LettersOfKey(w, Reversed(s));
    ReversedAt(s, i);
  }
}
