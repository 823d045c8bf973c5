/** The coproduct of a word as it is meant, with the chosen letters in the order of the word, and
    exactly which words the code treats in this way. */
module CoproductIntent {
  import opened Words
  import opened TensorDicts
  import opened Coproduct

  /** The letters at the chosen positions and the others, both in the order of the word. */
  function PickedPair(word: Word, mask: seq<bool>): Pair
    requires |mask| == |word|
  {
    (Picked(word, mask, true), Picked(word, mask, false))
  }

  /** The number of choices that are meant to give a pair. */
  function IntendedChoices(word: Word, masks: seq<seq<bool>>, k: Pair): nat
    requires forall i :: 0 <= i < |masks| ==> |masks[i]| == |word|
  {
    if masks == [] then 0
    else IntendedChoices(word, masks[..|masks| - 1], k) + (if PickedPair(word, masks[|masks| - 1]) == k then 1 else 0)
  }

  // ----- counting choices -----

  type Choice = seq<bool> -> bool

  function Tally(masks: seq<seq<bool>>, p: Choice): nat {
    if masks == [] then 0 else Tally(masks[..|masks| - 1], p) + (if p(masks[|masks| - 1]) then 1 else 0)
  }

  function AtEnd(p: Choice, side: bool): Choice {
    (mask: seq<bool>) => p(mask + [side])
  }

  function AtFront(p: Choice, side: bool): Choice {
    (mask: seq<bool>) => p([side] + mask)
  }

  function Turned(p: Choice): Choice {
    (mask: seq<bool>) => p(Reversed(mask))
  }

  lemma {:induction false} TallyConcat(a: seq<seq<bool>>, b: seq<seq<bool>>, p: Choice)
    ensures Tally(a + b, p) == Tally(a, p) + Tally(b, p)
    decreases |b|
  {
    if b == [] {
      assert a + b == a;
    } else {
      assert (a + b)[..|a + b| - 1] == a + b[..|b| - 1];
      TallyConcat(a, b[..|b| - 1], p);
    }
  }

  lemma {:induction false} TallyExtended(masks: seq<seq<bool>>, side: bool, p: Choice)
    ensures Tally(Extended(masks, side), p) == Tally(masks, AtEnd(p, side))
    decreases |masks|
  {
    if masks != [] {
      var n := |masks| - 1;
      assert Extended(masks, side)[..n] == Extended(masks[..n], side);
      TallyExtended(masks[..n], side, p);
    }
  }

  lemma {:induction false} TallySame(masks: seq<seq<bool>>, p: Choice, q: Choice)
    requires forall i :: 0 <= i < |masks| ==> p(masks[i]) == q(masks[i])
    ensures Tally(masks, p) == Tally(masks, q)
    decreases |masks|
  {
    if masks != [] {
      TallySame(masks[..|masks| - 1], p, q);
    }
  }

  lemma TallyMasks(n: nat, p: Choice)
    ensures Tally(Masks(n + 1), p) == Tally(Masks(n), AtEnd(p, true)) + Tally(Masks(n), AtEnd(p, false))
  {
    TallyConcat(Extended(Masks(n), true), Extended(Masks(n), false), p);
    TallyExtended(Masks(n), true, p);
    TallyExtended(Masks(n), false, p);
  }

  lemma EndAndFront(n: nat, p: Choice, first: bool, last: bool)
    ensures Tally(Masks(n), AtFront(AtEnd(p, last), first)) == Tally(Masks(n), AtEnd(AtFront(p, first), last))
  {
    forall i | 0 <= i < |Masks(n)|
      ensures AtFront(AtEnd(p, last), first)(Masks(n)[i]) == AtEnd(AtFront(p, first), last)(Masks(n)[i])
    {
      assert [first] + Masks(n)[i] + [last] == [first] + (Masks(n)[i] + [last]);
    }
    TallySame(Masks(n), AtFront(AtEnd(p, last), first), AtEnd(AtFront(p, first), last));
  }

  /** The choices can as well be told apart by their first position. */
  lemma {:induction false} TallyFront(n: nat, p: Choice)
    ensures Tally(Masks(n + 1), p) == Tally(Masks(n), AtFront(p, true)) + Tally(Masks(n), AtFront(p, false))
    decreases n
  {
    TallyMasks(n, p);
    hide Masks, Tally;
    if n == 0 {
      OneChoice(p, true);
      OneChoice(p, false);
    } else {
      TallyFront(n - 1, AtEnd(p, true));
      TallyFront(n - 1, AtEnd(p, false));
      TallyMasks(n - 1, AtFront(p, true));
      TallyMasks(n - 1, AtFront(p, false));
      EndAndFront(n - 1, p, true, true);
      EndAndFront(n - 1, p, true, false);
      EndAndFront(n - 1, p, false, true);
      EndAndFront(n - 1, p, false, false);
    }
  }

  lemma OneChoice(p: Choice, side: bool)
    ensures Tally(Masks(0), AtEnd(p, side)) == Tally(Masks(0), AtFront(p, side))
  {
    assert [] + [side] == [side] + [];
    assert Masks(0)[..0] == [];
  }

  /** Turning every choice round only changes their order. */
  lemma {:induction false} TallyTurned(n: nat, p: Choice)
    ensures Tally(Masks(n), Turned(p)) == Tally(Masks(n), p)
    decreases n
  {
    hide Masks, Tally, Turned, AtEnd, AtFront;
    if n == 0 {
      NothingToTurn(p);
    } else {
      TallyMasks(n - 1, Turned(p));
      TallyFront(n - 1, p);
      TurnedEnd(n - 1, p, true);
      TurnedEnd(n - 1, p, false);
      TallyTurned(n - 1, AtFront(p, true));
      TallyTurned(n - 1, AtFront(p, false));
    }
  }

  lemma NothingToTurn(p: Choice)
    ensures Tally(Masks(0), Turned(p)) == Tally(Masks(0), p)
  {
    var none: seq<bool> := [];
    assert Masks(0)[0] == none && Reversed(none) == none;
    assert Masks(0)[..0] == [];
  }

  lemma TurnedEnd(n: nat, p: Choice, side: bool)
    ensures Tally(Masks(n), AtEnd(Turned(p), side)) == Tally(Masks(n), Turned(AtFront(p, side)))
  {
    forall i | 0 <= i < |Masks(n)|
      ensures AtEnd(Turned(p), side)(Masks(n)[i]) == Turned(AtFront(p, side))(Masks(n)[i])
    {
      ReversedConcat(Masks(n)[i], [side]);
      ReversedShort([side]);
    }
    TallySame(Masks(n), AtEnd(Turned(p), side), Turned(AtFront(p, side)));
  }

  // ----- what the code counts -----

  function Gives(word: Word, k: Pair): Choice {
    (mask: seq<bool>) => |mask| == |word| && PickedPair(word, mask) == k
  }

  lemma {:induction false} IntendedIsTally(word: Word, masks: seq<seq<bool>>, k: Pair)
    requires forall i :: 0 <= i < |masks| ==> |masks[i]| == |word|
    ensures IntendedChoices(word, masks, k) == Tally(masks, Gives(word, k))
    decreases |masks|
  {
    if masks != [] {
      IntendedIsTally(word, masks[..|masks| - 1], k);
    }
  }

  lemma {:induction false} ChoicesIsTally(word: Word, masks: seq<seq<bool>>, k: Pair)
    requires forall i :: 0 <= i < |masks| ==> |masks[i]| == |word|
    ensures Choices(word, masks, k) == Tally(masks, Turned(Gives(Reversed(word), k)))
    decreases |masks|
  {
    if masks != [] {
      var mask := masks[|masks| - 1];
      ChoicesIsTally(word, masks[..|masks| - 1], k);
      PickedTurned(word, mask, true);
      PickedTurned(word, mask, false);
      ChosenIsReversed(word, mask, true);
      ChosenIsReversed(word, mask, false);
    }
  }

  /** Picking from the word turned round gives the picked letters turned round. */
  lemma {:induction false} PickedTurned(word: Word, mask: seq<bool>, side: bool)
    requires |mask| == |word|
    ensures Picked(Reversed(word), Reversed(mask), side) == Reversed(Picked(word, mask, side))
    decreases |word|
  {
    if word != [] {
      var n := |word| - 1;
      var last := if mask[n] == side then [word[n]] else [];
      PickedTurned(word[..n], mask[..n], side);
      assert Picked(word, mask, side) == Picked(word[..n], mask[..n], side) + last;
      hide Picked;
      ReversedFromTheEnd(word);
      ReversedFromTheEnd(mask);
      ReversedConcat(Picked(word[..n], mask[..n], side), last);
      ReversedShort(last);
      PickedFront(word[n], Reversed(word[..n]), mask[n], Reversed(mask[..n]), side);
    }
  }

  lemma {:induction false} PickedFront(l: nat, word: Word, chosen: bool, mask: seq<bool>, side: bool)
    requires |mask| == |word|
    ensures Picked([l] + word, [chosen] + mask, side) == (if chosen == side then [l] else []) + Picked(word, mask, side)
    decreases |word|
  {
    var n := |word|;
    if n == 0 {
      assert ([l] + word)[..0] == [] && ([chosen] + mask)[..0] == [];
    } else {
      assert ([l] + word)[..n] == [l] + word[..n - 1] && ([chosen] + mask)[..n] == [chosen] + mask[..n - 1];
      PickedFront(l, word[..n - 1], chosen, mask[..n - 1], side);
    }
  }

  /** The code computes the coproduct of the word turned round. */
  lemma ChoicesOfTurned(word: Word, k: Pair)
    ensures Choices(word, Masks(|word|), k) == IntendedChoices(Reversed(word), Masks(|word|), k)
  {
    ChoicesIsTally(word, Masks(|word|), k);
    IntendedIsTally(Reversed(word), Masks(|word|), k);
    TallyTurned(|word|, Gives(Reversed(word), k));
  }

  // ----- when that is what is meant -----

  ghost predicate CountsAsMeant(word: Word, k: Pair) {
    Choices(word, Masks(|word|), k) == IntendedChoices(word, Masks(|word|), k)
  }

  lemma {:induction false} PickedAll(word: Word, mask: seq<bool>)
    requires |mask| == |word|
    ensures Picked(word, mask, false) == [] ==> Picked(word, mask, true) == word
    ensures (forall i :: 0 <= i < |mask| ==> mask[i]) ==> PickedPair(word, mask) == (word, [])
    decreases |word|
  {
    if word != [] {
      PickedAll(word[..|word| - 1], mask[..|word| - 1]);
    }
  }

  lemma {:induction false} TallyHas(masks: seq<seq<bool>>, p: Choice, i: nat)
    requires i < |masks| && p(masks[i])
    ensures Tally(masks, p) > 0
    decreases |masks|
  {
    if i < |masks| - 1 {
      TallyHas(masks[..|masks| - 1], p, i);
    }
  }

  lemma {:induction false} TallyFinds(masks: seq<seq<bool>>, p: Choice) returns (i: nat)
    requires Tally(masks, p) > 0
    ensures i < |masks| && p(masks[i])
    decreases |masks|
  {
    if p(masks[|masks| - 1]) {
      i := |masks| - 1;
    } else {
      i := TallyFinds(masks[..|masks| - 1], p);
    }
  }

  /** Choosing every position is one way to get the word itself next to the empty word, and the only
      word that some choice gives next to the empty word. */
  lemma WholeWord(word: Word, u: Word)
    ensures IntendedChoices(word, Masks(|word|), (u, [])) > 0 <==> u == word
  {
    IntendedIsTally(word, Masks(|word|), (u, []));
    hide Masks, Tally, IntendedChoices, Picked;
    if u == word {
      AllChosen(word);
    }
    if Tally(Masks(|word|), Gives(word, (u, []))) > 0 {
      var i := TallyFinds(Masks(|word|), Gives(word, (u, [])));
      PickedAll(word, Masks(|word|)[i]);
    }
  }

  lemma AllChosen(word: Word)
    ensures Tally(Masks(|word|), Gives(word, (word, []))) > 0
  {
    hide Masks, Tally, Picked;
    var all := seq(|word|, _ => true);
    var i := MasksComplete(|word|, all);
    PickedAll(word, all);
    TallyHas(Masks(|word|), Gives(word, (word, [])), i);
  }

  /** The code gives the coproduct that is meant exactly for the words that read the same both ways. */
  lemma MeantExactlyForPalindromes(word: Word)
    ensures (forall k: Pair :: CountsAsMeant(word, k)) <==> Reversed(word) == word
  {
    hide Masks;
    forall k: Pair
      ensures Choices(word, Masks(|word|), k) == IntendedChoices(Reversed(word), Masks(|word|), k)
    {
      ChoicesOfTurned(word, k);
    }
    if forall k: Pair :: CountsAsMeant(word, k) {
      assert CountsAsMeant(word, (word, []));
      WholeWord(word, word);
      WholeWord(Reversed(word), word);
    }
  }

  /** The word 1 2: the pair of 1 2 and the empty word is missing from its coproduct. */
  lemma MissingFromOneTwo()
    ensures IntendedChoices([1, 2], Masks(2), ([1, 2], [])) > 0
    ensures forall v: real :: (([1, 2], []), v) !in Adjoint([1, 2])
  {
    var word := [1, 2];
    WholeWord(word, word);
    WholeWord(Reversed(word), word);
    ChoicesOfTurned(word, (word, []));
    forall v: real
      ensures ((word, []), v) !in Adjoint(word)
    {
      AdjointCounts(word, (word, []), v);
    }
  }
}
