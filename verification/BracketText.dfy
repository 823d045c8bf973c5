/** The printed form of a bracket. */
module BracketText {
  import opened BracketTrees

  function Digit(n: nat): (c: char)
    requires n < 10
    ensures '0' <= c <= '9'
  {
    '0' + n as char
  }

  function Decimal(n: nat): (s: string)
    ensures s != [] && forall i :: 0 <= i < |s| ==> IsDigit(s[i])
  {
    if n < 10 then [Digit(n)] else Decimal(n / 10) + [Digit(n % 10)]
  }

  predicate IsDigit(c: char) {
    '0' <= c <= '9'
  }

  function Text(t: Bracket): (s: string)
    ensures s != []
  {
    match t
    case Letter(l) => Decimal(l)
    case Pair(l, r) => "[" + Text(l) + "," + Text(r) + "]"
  }

  // ----- the walker -----

  method WalkSingle(data: seq<LieLetter>, at: nat, ss: string, ghost offset: nat, ghost t: Bracket)
    returns (out: string)
    requires Placed(data, at, offset, t)
    ensures out == ss + Text(t)
    decreases t, 2
  {
    if data[at].IsOffset() {
      out := WalkPair(data, at + data[at].Value(), at + data[at].Value() + 1, ss, t);
    } else {
      out := ss + Decimal(data[at].Value());
    }
  }

  method WalkPair(data: seq<LieLetter>, left: nat, right: nat, ss: string, ghost t: Bracket) returns (out: string)
    requires t.Pair? && right == left + 1 && StandsAt(data, left, Body(t))
    ensures out == ss + Text(t)
    decreases t, 1
  {
    hide Body, StandsAt;
    PlacedHalves(data, left, t);
    out := ss + "[";
    out := WalkSingle(data, left, out, 2, t.left);
    out := out + ",";
    out := WalkSingle(data, right, out, 1 + |Body(t.left)|, t.right);
    out := out + "]";
  }

  /** The text of the key of a bracket. */
  method ToString(data: seq<LieLetter>, ghost t: Bracket) returns (out: string)
    requires data == Encode(t)
    ensures out == Text(t)
  {
    EncodedLength(t);
    if |data| == 1 {
      out := Decimal(data[0].Value());
      return;
    }
    out := WalkPair(data, 0, 1, "", t);
  }

  // ----- what is printed -----

  /** The number that a row of decimal digits stands for. */
  function NumberOf(s: string): nat
    requires AllDecimal(s)
  {
    if s == [] then 0 else 10 * NumberOf(s[..|s| - 1]) + (s[|s| - 1] as nat - '0' as nat)
  }

  /** A printed number reads back as itself, and has no zeros in front. */
  lemma {:induction false} DecimalReadsBack(n: nat)
    ensures AllDecimal(Decimal(n)) && NumberOf(Decimal(n)) == n
    ensures Decimal(n)[0] == '0' ==> n == 0
    decreases n
  {
    if n >= 10 {
      DecimalReadsBack(n / 10);
      assert Decimal(n)[..|Decimal(n)| - 1] == Decimal(n / 10);
      assert Decimal(n)[0] == Decimal(n / 10)[0];
    } else {
      assert Decimal(n)[..0] == [];
    }
  }

  /** The form of the text, on one of the brackets of the tests. */
  lemma TextOfTwoPairs()
    ensures Text(Pair(Pair(Letter(1), Letter(2)), Pair(Letter(1), Letter(3)))) == "[[1,2],[1,3]]"
  {
    assert Decimal(1) == "1" && Decimal(2) == "2" && Decimal(3) == "3";
    PairText(Letter(1), Letter(2));
    PairText(Letter(1), Letter(3));
    PairText(Pair(Letter(1), Letter(2)), Pair(Letter(1), Letter(3)));
    hide Text;
  }

  lemma PairText(l: Bracket, r: Bracket)
    ensures Text(Pair(l, r)) == "[" + Text(l) + "," + Text(r) + "]"
    ensures l.Letter? ==> Text(l) == Decimal(l.letter)
    ensures r.Letter? ==> Text(r) == Decimal(r.letter)
  {
  }

  // ----- no two brackets print the same -----

  lemma {:induction false} DecimalInjective(m: nat, n: nat)
    requires Decimal(m) == Decimal(n)
    ensures m == n
    decreases m
  {
    var a, b := Decimal(m), Decimal(n);
    assert a[|a| - 1] == Digit(m % 10) && b[|b| - 1] == Digit(n % 10);
    assert m % 10 == n % 10;
    if m >= 10 && n >= 10 {
      assert a[..|a| - 1] == Decimal(m / 10) && b[..|b| - 1] == Decimal(n / 10);
      DecimalInjective(m / 10, n / 10);
    }
  }

  /** Text that cannot go on as part of a number. */
  predicate Ends(rest: string) {
    rest == [] || !IsDigit(rest[0])
  }

  predicate AllDecimal(s: string) {
    forall i :: 0 <= i < |s| ==> IsDigit(s[i])
  }

  lemma {:induction false} DigitsEnd(a: string, rest: string, b: string, rest': string)
    requires AllDecimal(a) && AllDecimal(b) && Ends(rest) && Ends(rest') && a + rest == b + rest'
    ensures a == b && rest == rest'
    decreases |a|
  {
    if a != [] {
      assert (a + rest)[0] == a[0] && (a + rest)[1..] == a[1..] + rest;
    } else {
      assert a + rest == rest;
    }
    if b != [] {
      assert (b + rest')[0] == b[0] && (b + rest')[1..] == b[1..] + rest';
    } else {
      assert b + rest' == rest';
    }
    if a != [] && b != [] {
      DigitsEnd(a[1..], rest, b[1..], rest');
      assert a == [a[0]] + a[1..] && b == [b[0]] + b[1..];
    }
  }

  lemma StartsWithDigit(t: Bracket)
    ensures t.Letter? <==> IsDigit(Text(t)[0])
    ensures t.Pair? ==> Text(t)[0] == '['
  {
  }

  lemma TextOfPair(t: Bracket, rest: string)
    requires t.Pair?
    ensures Text(t) + rest == "[" + (Text(t.left) + ("," + (Text(t.right) + ("]" + rest))))
  {
    var l, r := Text(t.left), Text(t.right);
    assert "[" + l + "," + r + "]" + rest == "[" + (l + ("," + (r + ("]" + rest))));
  }

  /** A text is read to its end in one way only. */
  lemma {:induction false} TextIsUnambiguous(t: Bracket, rest: string, u: Bracket, rest': string)
    requires Ends(rest) && Ends(rest') && Text(t) + rest == Text(u) + rest'
    ensures t == u && rest == rest'
    decreases t
  {
    StartsWithDigit(t);
    StartsWithDigit(u);
    assert Text(t)[0] == (Text(t) + rest)[0] && Text(u)[0] == (Text(u) + rest')[0];
    if t.Letter? {
      DigitsEnd(Decimal(t.letter), rest, Decimal(u.letter), rest');
      DecimalInjective(t.letter, u.letter);
    } else {
      TextOfPair(t, rest);
      TextOfPair(u, rest');
      hide Text;
      SamePair(t, rest, u, rest');
    }
  }

  lemma SamePair(t: Bracket, rest: string, u: Bracket, rest': string)
    requires t.Pair? && u.Pair?
    requires "[" + (Text(t.left) + ("," + (Text(t.right) + ("]" + rest))))
          == "[" + (Text(u.left) + ("," + (Text(u.right) + ("]" + rest'))))
    ensures t == u && rest == rest'
    decreases t, 0
  {
    hide Text;
    var r, r' := Text(t.right) + ("]" + rest), Text(u.right) + ("]" + rest');
    SameTail("[", Text(t.left) + ("," + r), Text(u.left) + ("," + r'));
    TextIsUnambiguous(t.left, "," + r, u.left, "," + r');
    SameTail(",", r, r');
    TextIsUnambiguous(t.right, "]" + rest, u.right, "]" + rest');
    SameTail("]", rest, rest');
  }

  lemma SameTail(a: string, b: string, c: string)
    requires a + b == a + c
    ensures b == c
  {
    assert b == (a + b)[|a|..] && c == (a + c)[|a|..];
  }

  /** The text determines the bracket. */
  lemma TextInjective(t: Bracket, u: Bracket)
    requires Text(t) == Text(u)
    ensures t == u
  {
    assert Text(t) + [] == Text(t) && Text(u) + [] == Text(u);
    TextIsUnambiguous(t, [], u, []);
  }
}
