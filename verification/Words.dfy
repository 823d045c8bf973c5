/** Words as numbers to the base of the alphabet's size. */
module Words {

  function Power(w: nat, n: nat): nat
    decreases n
  {
    if n == 0 then 1 else Power(w, n - 1) * w
  }

  /** Horner's rule, the most significant letter first. */
  function Horner(w: nat, s: seq<nat>): nat {
    if s == [] then 0 else Horner(w, s[..|s| - 1]) * w + s[|s| - 1]
  }

  function Reversed<T>(s: seq<T>): (r: seq<T>)
    ensures |r| == |s|
  {
    if s == [] then [] else Reversed(s[1..]) + [s[0]]
  }

  lemma {:induction false} ReversedAt<T>(s: seq<T>, i: nat)
    requires i < |s|
    ensures Reversed(s)[i] == s[|s| - 1 - i]
    decreases |s|
  {
    if i < |s| - 1 {
      ReversedAt(s[1..], i);
    }
  }

  lemma ReversedShort<T>(s: seq<T>)
    requires |s| <= 1
    ensures Reversed(s) == s
  {
  }

  lemma {:induction false} ReversedConcat<T>(a: seq<T>, b: seq<T>)
    ensures Reversed(a + b) == Reversed(b) + Reversed(a)
    decreases |a|
  {
    if a == [] {
      assert a + b == b;
    } else {
      assert (a + b)[1..] == a[1..] + b;
      ReversedConcat(a[1..], b);
    }
  }

  lemma ReversedFromTheEnd<T>(s: seq<T>)
    requires s != []
    ensures Reversed(s) == [s[|s| - 1]] + Reversed(s[..|s| - 1])
  {
    var front, last := s[..|s| - 1], [s[|s| - 1]];
    assert s == front + last;
    ReversedConcat(front, last);
    ReversedShort(last);
    hide Reversed;
  }

  lemma {:induction false} ReversedTwice<T>(s: seq<T>)
    ensures Reversed(Reversed(s)) == s
    decreases |s|
  {
    if s != [] {
      ReversedTwice(s[1..]);
      ReversedConcat(Reversed(s[1..]), [s[0]]);
      ReversedShort([s[0]]);
      assert s == [s[0]] + s[1..];
    }
  }

  lemma PowerPositive(w: nat, n: nat)
    requires w > 0
    ensures Power(w, n) > 0
    decreases n
  {
    if n > 0 {
      PowerPositive(w, n - 1);
      assert Power(w, n - 1) * w > 0;
    }
  }

  lemma Associate(a: int, b: int, c: int)
    ensures a * b * c == a * (b * c)
  {
  }

  lemma Distribute(a: int, b: int, c: int)
    ensures (a + b) * c == a * c + b * c
  {
  }

  lemma HornerStep(w: nat, s: seq<nat>, l: nat)
    ensures Horner(w, s + [l]) == Horner(w, s) * w + l
  {
    assert (s + [l])[..|s|] == s;
  }

  lemma {:induction false} HornerConcat(w: nat, a: seq<nat>, b: seq<nat>)
    ensures Horner(w, a + b) == Horner(w, a) * Power(w, |b|) + Horner(w, b)
    decreases |b|
  {
    if b == [] {
      assert a + b == a;
    } else {
      var b', l := b[..|b| - 1], b[|b| - 1];
      HornerConcat(w, a, b');
      assert a + b == a + b' + [l] && b == b' + [l];
      HornerStep(w, a + b', l);
      HornerStep(w, b', l);
      Distribute(Horner(w, a) * Power(w, |b'|), Horner(w, b'), w);
      Associate(Horner(w, a), Power(w, |b'|), w);
    }
  }

  // ----- digits below w, at a fixed length -----

  ghost predicate AllDigits(w: nat, s: seq<nat>) {
    forall i :: 0 <= i < |s| ==> s[i] < w
  }

  lemma ReversedDigits(w: nat, s: seq<nat>)
    ensures AllDigits(w, s) ==> AllDigits(w, Reversed(s))
  {
    forall i | 0 <= i < |s|
      ensures Reversed(s)[i] == s[|s| - 1 - i]
    {
      ReversedAt(s, i);
    }
  }

  function Digits(w: nat, d: nat, x: nat): (s: seq<nat>)
    requires w > 0
    ensures |s| == d
    decreases d
  {
    if d == 0 then [] else Digits(w, d - 1, x / w) + [x % w]
  }

  lemma {:induction false} DigitsAreDigits(w: nat, d: nat, x: nat)
    requires w > 0
    ensures AllDigits(w, Digits(w, d, x))
    decreases d
  {
    if d > 0 {
      DigitsAreDigits(w, d - 1, x / w);
    }
  }

  lemma QuotientOf(q: nat, w: nat, l: nat)
    requires l < w
    ensures (q * w + l) / w == q && (q * w + l) % w == l
  {
    var x := q * w + l;
    var k := x / w;
    assert x == k * w + x % w;
    if k > q {
      Multiply(q + 1, k, w);
    } else if k < q {
      Multiply(k + 1, q, w);
    }
  }

  lemma Multiply(a: int, b: int, c: int)
    requires a <= b && 0 <= c
    ensures a * c <= b * c
  {
  }

  lemma {:induction false} HornerBelow(w: nat, s: seq<nat>)
    requires AllDigits(w, s)
    ensures Horner(w, s) < Power(w, |s|)
    decreases |s|
  {
    if s != [] {
      var s' := s[..|s| - 1];
      HornerBelow(w, s');
      Multiply(Horner(w, s') + 1, Power(w, |s'|), w);
      Distribute(Horner(w, s'), 1, w);
    }
  }

  lemma {:induction false} DigitsOfHorner(w: nat, s: seq<nat>)
    requires w > 0 && AllDigits(w, s)
    ensures Digits(w, |s|, Horner(w, s)) == s
    decreases |s|
  {
    if s != [] {
      var s' := s[..|s| - 1];
      DigitsOfHorner(w, s');
      QuotientOf(Horner(w, s'), w, s[|s| - 1]);
    }
  }

  lemma {:induction false} HornerOfDigits(w: nat, d: nat, x: nat)
    requires w > 0 && x < Power(w, d)
    ensures Horner(w, Digits(w, d, x)) == x
    decreases d
  {
    if d > 0 {
      QuotientBelow(x, w, Power(w, d - 1));
      HornerOfDigits(w, d - 1, x / w);
      hide Power, Horner, Digits;
      LastDigit(w, d, x);
    }
  }

  lemma LastDigit(w: nat, d: nat, x: nat)
    requires w > 0 && d > 0
    ensures Horner(w, Digits(w, d - 1, x / w)) == x / w ==> Horner(w, Digits(w, d, x)) == x
  {
    hide Horner;
    HornerStep(w, Digits(w, d - 1, x / w), x % w);
    assert x == (x / w) * w + x % w;
  }

  lemma QuotientBelow(x: nat, w: nat, p: nat)
    requires w > 0 && x < p * w
    ensures x / w < p
  {
    var q := x / w;
    assert x == q * w + x % w;
    if q >= p {
      Multiply(p, q, w);
    }
  }
}
