/** Lie brackets, and their flat encoding with relative offsets. */
module BracketTrees {
  import opened Wrappers

  datatype Bracket = Letter(letter: nat) | Pair(left: Bracket, right: Bracket) {
    function Degree(): nat {
      match this
      case Letter(_) => 1
      case Pair(l, r) => l.Degree() + r.Degree()
    }
  }

  /** A letter or an offset, told apart by the lowest bit. */
  datatype LieLetter = LieLetter(raw: nat) {
    predicate IsOffset() {
      raw % 2 == 0
    }

    function Value(): nat {
      raw / 2
    }
  }

  function FromLetter(letter: nat): LieLetter {
    LieLetter(1 + letter * 2)
  }

  function FromOffset(offset: nat): LieLetter {
    LieLetter(offset * 2)
  }

  lemma LettersAreNotOffsets(n: nat)
    ensures !FromLetter(n).IsOffset() && FromLetter(n).Value() == n
    ensures FromOffset(n).IsOffset() && FromOffset(n).Value() == n
  {
  }

  // ----- encoding -----

  /** What a subtree takes up after the pair that it belongs to: a letter is in the pair itself. */
  function Body(t: Bracket): (data: seq<LieLetter>)
    ensures |data| == 2 * (t.Degree() - 1)
    decreases t
  {
    match t
    case Letter(_) => []
    case Pair(l, r) => [Head(l, 2), Head(r, 1 + |Body(l)|)] + Body(l) + Body(r)
  }

  function Head(t: Bracket, offset: nat): LieLetter {
    if t.Letter? then FromLetter(t.letter) else FromOffset(offset)
  }

  function Encode(t: Bracket): seq<LieLetter> {
    if t.Letter? then [FromLetter(t.letter)] else Body(t)
  }

  /** Two entries for every letter after the first, and a single one for a letter alone. */
  lemma EncodedLength(t: Bracket)
    ensures |Encode(t)| == if t.Letter? then 1 else 2 * (t.Degree() - 1)
    ensures t.Letter? <==> |Encode(t)| == 1
  {
    if t.Pair? {
      assert t.Degree() == t.left.Degree() + t.right.Degree();
      DegreePositive(t.left);
      DegreePositive(t.right);
    }
  }

  lemma DegreePositive(t: Bracket)
    ensures t.Degree() >= 1
  {
  }

  /** [[1,2],3]: an offset of 2 and the letter 3, then the letters 1 and 2 of the inner pair. */
  lemma EncodeOfNested()
    ensures Encode(Pair(Pair(Letter(1), Letter(2)), Letter(3)))
         == [LieLetter(4), LieLetter(7), LieLetter(3), LieLetter(5)]
    ensures Encode(Pair(Letter(3), Pair(Letter(1), Letter(2))))
         == [LieLetter(7), LieLetter(2), LieLetter(3), LieLetter(5)]
  {
    assert Body(Pair(Letter(1), Letter(2))) == [LieLetter(3), LieLetter(5)];
    assert Body(Letter(3)) == [];
  }

  // ----- decoding -----

  /** The tree that the walker sees from an entry: a letter, or the pair that the offset leads to.
      There is none if an offset does not lead further on inside the array. */
  function DecodeSingle(data: seq<LieLetter>, at: nat): Option<Bracket>
    decreases |data| - at
  {
    if at >= |data| then None
    else if !data[at].IsOffset() then Some(Letter(data[at].Value()))
    else
      var pair := at + data[at].Value();
      if pair == at || pair + 1 >= |data| then None
      else
        match (DecodeSingle(data, pair), DecodeSingle(data, pair + 1))
        case (Some(l), Some(r)) => Some(Pair(l, r))
        case _ => None
  }

  function Decode(data: seq<LieLetter>): Option<Bracket> {
    if |data| == 1 then DecodeSingle(data, 0)
    else
      match (DecodeSingle(data, 0), DecodeSingle(data, 1))
      case (Some(l), Some(r)) => Some(Pair(l, r))
      case _ => None
  }

  /** A part of an array, from a given place on. */
  ghost predicate StandsAt<T>(data: seq<T>, at: nat, part: seq<T>) {
    at + |part| <= |data| && forall k :: 0 <= k < |part| ==> data[at + k] == part[k]
  }

  lemma ConcatStandsAt<T>(data: seq<T>, at: nat, a: seq<T>, b: seq<T>)
    requires StandsAt(data, at, a + b)
    ensures StandsAt(data, at, a) && StandsAt(data, at + |a|, b)
  {
    assert forall k :: 0 <= k < |a| ==> (a + b)[k] == a[k];
    assert forall k :: 0 <= k < |b| ==> (a + b)[|a| + k] == b[k];
    forall k | 0 <= k < |b|
      ensures data[at + |a| + k] == b[k]
    {
      assert data[at + (|a| + k)] == (a + b)[|a| + k];
    }
  }

  /** A subtree is in the array, with its pair where the entry for it leads. */
  ghost predicate Placed(data: seq<LieLetter>, at: nat, offset: nat, t: Bracket) {
    && at < |data| && data[at] == Head(t, offset)
    && (t.Pair? ==> offset > 0 && StandsAt(data, at + offset, Body(t)))
  }

  lemma PlacedHalves(data: seq<LieLetter>, start: nat, t: Bracket)
    requires t.Pair? && StandsAt(data, start, Body(t))
    ensures |Body(t)| >= 2 && start + |Body(t)| <= |data|
    ensures Placed(data, start, 2, t.left)
    ensures Placed(data, start + 1, 1 + |Body(t.left)|, t.right)
  {
    BodyOfPair(t);
    hide Body, Bracket.Degree, Head;
    var h, l, r := Heads(t), Body(t.left), Body(t.right);
    ConcatStandsAt(data, start, h + l, r);
    ConcatStandsAt(data, start, h, l);
    assert data[start + 0] == h[0] && data[start + 1] == h[1];
    assert start + 1 + (1 + |l|) == start + |h + l|;
    hide StandsAt;
  }

  function Heads(t: Bracket): (h: seq<LieLetter>)
    requires t.Pair?
    ensures |h| == 2 && h[0] == Head(t.left, 2) && h[1] == Head(t.right, 1 + |Body(t.left)|)
  {
    [Head(t.left, 2), Head(t.right, 1 + |Body(t.left)|)]
  }

  lemma BodyOfPair(t: Bracket)
    requires t.Pair?
    ensures Body(t) == Heads(t) + Body(t.left) + Body(t.right)
  {
  }

  lemma {:induction false} PlacedDecodes(data: seq<LieLetter>, at: nat, offset: nat, t: Bracket)
    requires Placed(data, at, offset, t)
    ensures DecodeSingle(data, at) == Some(t)
    decreases t
  {
    hide Body, Bracket.Degree, StandsAt;
    if t.Pair? {
      PlacedHalves(data, at + offset, t);
      PlacedDecodes(data, at + offset, 2, t.left);
      PlacedDecodes(data, at + offset + 1, 1 + |Body(t.left)|, t.right);
    }
  }

  lemma EncodePlaced(t: Bracket)
    requires t.Pair?
    ensures Placed(Encode(t), 0, 2, t.left) && Placed(Encode(t), 1, 1 + |Body(t.left)|, t.right)
  {
    var data := Encode(t);
    PlacedHalves(data, 0, t);
    hide Body, Placed;
  }

  /** Decoding restores the tree. */
  lemma DecodeEncode(t: Bracket)
    ensures Decode(Encode(t)) == Some(t)
  {
    EncodedLength(t);
    if t.Pair? {
      var data := Encode(t);
      EncodePlaced(t);
      hide Body, Placed;
      PlacedDecodes(data, 0, 2, t.left);
      PlacedDecodes(data, 1, 1 + |Body(t.left)|, t.right);
    }
  }

  lemma EncodeInjective(t: Bracket, u: Bracket)
    requires Encode(t) == Encode(u)
    ensures t == u
  {
    DecodeEncode(t);
    DecodeEncode(u);
  }

  // ----- degree -----

  function CountLetters(data: seq<LieLetter>): nat {
    if data == [] then 0 else CountLetters(data[..|data| - 1]) + (if data[|data| - 1].IsOffset() then 0 else 1)
  }

  method Degree(data: seq<LieLetter>) returns (n: nat)
    ensures n == CountLetters(data)
    ensures forall t: Bracket :: Encode(t) == data ==> n == t.Degree()
  {
    n := 0;
    for i := 0 to |data|
      invariant n == CountLetters(data[..i])
    {
      assert data[..i + 1][..i] == data[..i];
      if !data[i].IsOffset() {
        n := n + 1;
      }
    }
    assert data[..|data|] == data;
    forall t: Bracket | Encode(t) == data
      ensures n == t.Degree()
    {
      DegreeIsCount(t);
    }
  }

  lemma {:induction false} CountConcat(a: seq<LieLetter>, b: seq<LieLetter>)
    ensures CountLetters(a + b) == CountLetters(a) + CountLetters(b)
    decreases |b|
  {
    if b == [] {
      assert a + b == a;
    } else {
      assert (a + b)[..|a + b| - 1] == a + b[..|b| - 1];
      CountConcat(a, b[..|b| - 1]);
    }
  }

  lemma {:induction false} BodyCount(t: Bracket)
    ensures CountLetters(Body(t)) == if t.Letter? then 0 else t.Degree()
    decreases t
  {
    if t.Pair? {
      BodyCount(t.left);
      BodyCount(t.right);
      BodyOfPair(t);
      HeadsCount(t);
      hide Body, CountLetters, Head;
      CountConcat(Heads(t), Body(t.left));
      CountConcat(Heads(t) + Body(t.left), Body(t.right));
    }
  }

  lemma HeadsCount(t: Bracket)
    requires t.Pair?
    ensures CountLetters(Heads(t)) == (if t.left.Letter? then 1 else 0) + (if t.right.Letter? then 1 else 0)
  {
    hide Body, CountLetters;
    var a, b := Head(t.left, 2), Head(t.right, 1 + |Body(t.left)|);
    CountPair(a, b);
    HeadIsLetter(t.left, 2);
    HeadIsLetter(t.right, 1 + |Body(t.left)|);
    hide Head, LieLetter.IsOffset;
    assert Heads(t) == [a, b];
  }

  lemma HeadIsLetter(t: Bracket, offset: nat)
    ensures Head(t, offset).IsOffset() <==> t.Pair?
  {
  }

  lemma CountPair(a: LieLetter, b: LieLetter)
    ensures CountLetters([a, b]) == (if a.IsOffset() then 0 else 1) + (if b.IsOffset() then 0 else 1)
  {
    hide LieLetter.IsOffset;
    assert [a, b][..1] == [a] && [a][..0] == [];
    assert CountLetters([a]) == CountLetters([a][..0]) + (if a.IsOffset() then 0 else 1);
  }

  /** The number of letters in the array is the degree of the bracket. */
  lemma DegreeIsCount(t: Bracket)
    ensures CountLetters(Encode(t)) == t.Degree()
  {
    BodyCount(t);
  }

  // ----- comparing -----

  /** What `branches_equal` looks at: it follows the offsets on both sides to the first entry of
      the pair, and from there on never to the second. Nothing is said where it reads past the end. */
  function BranchesEqual(lhs: seq<LieLetter>, i: nat, rhs: seq<LieLetter>, j: nat): Option<bool>
    decreases |lhs| - i
  {
    if i >= |lhs| || j >= |rhs| then None
    else if !lhs[i].IsOffset() && !rhs[j].IsOffset() then Some(lhs[i].Value() == rhs[j].Value())
    else if !lhs[i].IsOffset() || !rhs[j].IsOffset() then Some(false)
    else if lhs[i].Value() == 0 then None
    else BranchesEqual(lhs, i + lhs[i].Value(), rhs, j + rhs[j].Value())
  }

  function KeysEqual(lhs: seq<LieLetter>, rhs: seq<LieLetter>): Option<bool> {
    var first := BranchesEqual(lhs, 0, rhs, 0);
    if first == Some(true) then BranchesEqual(lhs, 1, rhs, 1) else first
  }

  /** The way down the left: how many brackets, and the letter at the end. */
  function LeftSpine(t: Bracket): (nat, nat) {
    if t.Letter? then (0, t.letter) else (LeftSpine(t.left).0 + 1, LeftSpine(t.left).1)
  }

  lemma {:induction false} BranchesCompareSpines(lhs: seq<LieLetter>, i: nat, p: nat, t: Bracket,
                                                 rhs: seq<LieLetter>, j: nat, q: nat, u: Bracket)
    requires Placed(lhs, i, p, t) && Placed(rhs, j, q, u)
    ensures BranchesEqual(lhs, i, rhs, j) == Some(LeftSpine(t) == LeftSpine(u))
    decreases t
  {
    hide Body, Bracket.Degree, StandsAt;
    if t.Pair? && u.Pair? {
      PlacedHalves(lhs, i + p, t);
      PlacedHalves(rhs, j + q, u);
      BranchesCompareSpines(lhs, i + p, 2, t.left, rhs, j + q, 2, u.left);
      hide Placed;
      BothGoLeft(lhs, i, p, rhs, j, q);
    }
  }

  lemma BothGoLeft(lhs: seq<LieLetter>, i: nat, p: nat, rhs: seq<LieLetter>, j: nat, q: nat)
    requires i < |lhs| && j < |rhs| && lhs[i] == FromOffset(p) && rhs[j] == FromOffset(q) && p > 0
    ensures BranchesEqual(lhs, i, rhs, j) == BranchesEqual(lhs, i + p, rhs, j + q)
  {
    LettersAreNotOffsets(p);
    LettersAreNotOffsets(q);
  }

  /** The entry that a comparison starts from: the letter itself, or the left half. */
  function Start(t: Bracket): Bracket {
    if t.Letter? then t else t.left
  }

  /** `equals` on two brackets holds exactly if both halves agree down their left sides: keys that
      differ elsewhere compare equal. A single letter has no second entry, and one is asked for
      exactly if the first entries agree. */
  lemma EqualsComparesSpines(t: Bracket, u: Bracket)
    ensures KeysEqual(Encode(t), Encode(u)) ==
              if LeftSpine(Start(t)) != LeftSpine(Start(u)) then Some(false)
              else if t.Letter? || u.Letter? then None
              else Some(LeftSpine(t.right) == LeftSpine(u.right))
  {
    StartPlaced(t);
    StartPlaced(u);
    EncodedLength(t);
    EncodedLength(u);
    if t.Pair? && u.Pair? {
      EncodePlaced(t);
      EncodePlaced(u);
    }
    hide Body, Bracket.Degree, Placed, LeftSpine, Encode, Start;
    BranchesCompareSpines(Encode(t), 0, 2, Start(t), Encode(u), 0, 2, Start(u));
    if t.Pair? && u.Pair? {
      BranchesCompareSpines(Encode(t), 1, 1 + |Body(t.left)|, t.right, Encode(u), 1, 1 + |Body(u.left)|, u.right);
    }
  }

  lemma StartPlaced(t: Bracket)
    ensures Placed(Encode(t), 0, 2, Start(t))
  {
    if t.Pair? {
      EncodePlaced(t);
    }
  }

  /** [1,[2,3]] and [1,[2,4]] compare equal. */
  lemma EqualsMissesDifference()
    ensures var t := Pair(Letter(1), Pair(Letter(2), Letter(3)));
            var u := Pair(Letter(1), Pair(Letter(2), Letter(4)));
            t != u && KeysEqual(Encode(t), Encode(u)) == Some(true)
  {
    var t := Pair(Letter(1), Pair(Letter(2), Letter(3)));
    var u := Pair(Letter(1), Pair(Letter(2), Letter(4)));
    assert t.right.right.letter == 3 && u.right.right.letter == 4;
    EqualsComparesSpines(t, u);
  }
}
