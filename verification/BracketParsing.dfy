/** The two ways to a bracket's flat encoding: from a key of the basis and from nested lists. */
module BracketParsing {
  import opened BracketTrees

  // ----- from a key -----

  datatype Basis = Basis(letter: nat -> bool, toLetter: nat -> nat, parents: nat -> (nat, nat))

  ghost predicate ParentsBefore(basis: Basis, key: nat) {
    !basis.letter(key) ==> basis.parents(key).0 < key && basis.parents(key).1 < key
  }

  /** Keys are in an order that has the parents of a key before it. */
  ghost predicate Ordered(basis: Basis) {
    forall key: nat :: ParentsBefore(basis, key)
  }

  ghost function TreeOf(basis: Basis, key: nat): Bracket
    requires Ordered(basis)
    decreases key
  {
    assert ParentsBefore(basis, key);
    if basis.letter(key) then Letter(basis.toLetter(key))
    else Pair(TreeOf(basis, basis.parents(key).0), TreeOf(basis, basis.parents(key).1))
  }

  lemma LettersOfParents(basis: Basis, left: nat, right: nat)
    requires Ordered(basis)
    ensures TreeOf(basis, left).Letter? <==> basis.letter(left)
    ensures TreeOf(basis, right).Letter? <==> basis.letter(right)
    ensures basis.letter(left) ==> TreeOf(basis, left) == Letter(basis.toLetter(left))
    ensures basis.letter(right) ==> TreeOf(basis, right) == Letter(basis.toLetter(right))
  {
  }

  /** The encoding of a pair, by what its halves are. */
  lemma PairEncoded(l: Bracket, r: Bracket)
    ensures l.Letter? && r.Letter? ==> Encode(Pair(l, r)) == [FromLetter(l.letter), FromLetter(r.letter)]
    ensures l.Letter? && r.Pair? ==> Encode(Pair(l, r)) == [FromLetter(l.letter), FromOffset(1)] + Encode(r)
    ensures l.Pair? && r.Letter? ==> Encode(Pair(l, r)) == [FromOffset(2), FromLetter(r.letter)] + Encode(l)
    ensures l.Pair? && r.Pair? ==>
            Encode(Pair(l, r)) == [FromOffset(2), FromOffset(1 + |Encode(l)|)] + Encode(l) + Encode(r)
  {
    BodyOfPair(Pair(l, r));
    assert l.Letter? ==> Body(l) == [];
    assert r.Letter? ==> Body(r) == [];
    assert Heads(Pair(l, r)) == [Head(l, 2), Head(r, 1 + |Body(l)|)];
    hide Body;
  }

  method ParseKey(basis: Basis, key: nat) returns (result: seq<LieLetter>)
    requires Ordered(basis)
    ensures result == Encode(TreeOf(basis, key))
    decreases key
  {
    assert ParentsBefore(basis, key);
    if basis.letter(key) {
      return [FromLetter(basis.toLetter(key))];
    }
    var (leftKey, rightKey) := basis.parents(key);
    ghost var t := TreeOf(basis, key);
    assert t == Pair(TreeOf(basis, leftKey), TreeOf(basis, rightKey));
    LettersOfParents(basis, leftKey, rightKey);
    PairEncoded(t.left, t.right);
    hide Encode, TreeOf, Ordered;
    var leftLetter := basis.letter(leftKey);
    var rightLetter := basis.letter(rightKey);
    if leftLetter && rightLetter {
      return [FromLetter(basis.toLetter(leftKey)), FromLetter(basis.toLetter(rightKey))];
    }
    result := [];
    if leftLetter {
      var rightResult := ParseKey(basis, rightKey);
      result := result + [FromLetter(basis.toLetter(leftKey))];
      result := result + [FromOffset(1)];
      result := result + rightResult;
    } else if rightLetter {
      var leftResult := ParseKey(basis, leftKey);
      result := result + [FromOffset(2)];
      result := result + [FromLetter(basis.toLetter(rightKey))];
      result := result + leftResult;
    } else {
      var rightResult := ParseKey(basis, rightKey);
      var leftResult := ParseKey(basis, leftKey);
      result := result + [FromOffset(2)];
      result := result + [FromOffset(1 + |leftResult|)];
      result := result + leftResult;
      result := result + rightResult;
    }
  }

  // ----- from nested lists -----

  datatype Obj = Int(value: nat) | List(items: seq<Obj>) | Other

  datatype Error = ValueError | TypeError

  datatype Read<T> = Good(value: T) | Bad(error: Error)

  /** The bracket that an object stands for, or what is wrong with the leftmost bad part of it. */
  function Meaning(obj: Obj): Read<Bracket> {
    match obj
    case Int(value) => Good(Letter(value))
    case Other => Bad(TypeError)
    case List(items) =>
      if |items| != 2 then Bad(ValueError)
      else
        match (Meaning(items[0]), Meaning(items[1]))
        case (Bad(e), _) => Bad(e)
        case (Good(_), Bad(e)) => Bad(e)
        case (Good(l), Good(r)) => Good(Pair(l, r))
  }

  function Encoded(m: Read<Bracket>): Read<seq<LieLetter>> {
    match m
    case Good(t) => Good(Encode(t))
    case Bad(e) => Bad(e)
  }

  method ParseSingle(obj: Obj) returns (result: Read<seq<LieLetter>>)
    ensures result == Encoded(Meaning(obj))
    decreases obj, 1
  {
    match obj
    case List(items) =>
      if |items| != 2 {
        return Bad(ValueError);
      }
      result := ParsePair(items[0], items[1], obj);
    case Int(value) =>
      result := Good([FromLetter(value)]);
    case Other =>
      result := Bad(TypeError);
  }

  method ParsePair(left: Obj, right: Obj, ghost pair: Obj) returns (result: Read<seq<LieLetter>>)
    requires pair.List? && |pair.items| == 2 && left == pair.items[0] && right == pair.items[1]
    ensures result == Encoded(Meaning(pair))
    decreases pair, 0
  {
    var leftTree := ParseSingle(left);
    if leftTree.Bad? {
      return leftTree;
    }
    var rightTree := ParseSingle(right);
    if rightTree.Bad? {
      return rightTree;
    }
    var data := Join(leftTree.value, rightTree.value, Meaning(left).value, Meaning(right).value);
    result := Good(data);
  }

  method Join(leftTree: seq<LieLetter>, rightTree: seq<LieLetter>, ghost l: Bracket, ghost r: Bracket)
    returns (result: seq<LieLetter>)
    requires leftTree == Encode(l) && rightTree == Encode(r)
    ensures result == Encode(Pair(l, r))
  {
    EncodedLength(l);
    EncodedLength(r);
    DegreePositive(l);
    DegreePositive(r);
    BodyOfPair(Pair(l, r));
    result := [];
    var leftSize := 0;
    if |leftTree| == 1 {
      result := result + [leftTree[0]];
    } else {
      leftSize := |leftTree|;
      result := result + [FromOffset(2)];
    }
    if |rightTree| == 1 {
      result := result + [rightTree[0]];
    } else {
      result := result + [FromOffset(1 + leftSize)];
    }
    assert result == Heads(Pair(l, r));
    if |leftTree| > 1 {
      result := result + leftTree;
    }
    if |rightTree| > 1 {
      result := result + rightTree;
    }
  }

  method Parse(obj: Obj) returns (result: Read<seq<LieLetter>>)
    ensures result == if obj.List? then Encoded(Meaning(obj)) else Bad(TypeError)
  {
    if !obj.List? {
      return Bad(TypeError);
    }
    if |obj.items| != 2 {
      return Bad(ValueError);
    }
    result := ParsePair(obj.items[0], obj.items[1], obj);
  }

  /** The nested lists for a bracket. */
  function ListOf(t: Bracket): Obj {
    match t
    case Letter(l) => Int(l)
    case Pair(l, r) => List([ListOf(l), ListOf(r)])
  }

  /** Nested lists are the brackets: each bracket is what exactly one object stands for. */
  lemma {:induction false} MeaningInvertsListOf(obj: Obj, t: Bracket)
    ensures Meaning(obj) == Good(t) <==> obj == ListOf(t)
    decreases t
  {
    if t.Pair? && obj.List? && |obj.items| == 2 {
      MeaningInvertsListOf(obj.items[0], t.left);
      MeaningInvertsListOf(obj.items[1], t.right);
      assert obj.items == [obj.items[0], obj.items[1]];
    }
  }

  /** Both parsers give the same array for the same bracket, and for no other. */
  lemma ParsersAgree(basis: Basis, key: nat, obj: Obj)
    requires Ordered(basis) && Meaning(obj).Good?
    ensures Encode(TreeOf(basis, key)) == Encoded(Meaning(obj)).value <==> obj == ListOf(TreeOf(basis, key))
  {
    MeaningInvertsListOf(obj, TreeOf(basis, key));
    DecodeEncode(TreeOf(basis, key));
    DecodeEncode(Meaning(obj).value);
  }
}
