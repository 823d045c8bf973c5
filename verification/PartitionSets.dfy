/** Cut intervals as sets of points, and the state of a merge of two lists of points. */
module PartitionSets {
  import opened Timeline

  /** An interval and the points it is cut at. */
  datatype Cut = Cut(inf: real, sup: real, points: seq<real>)

  /** The points are in strictly increasing order and inside the interval. */
  ghost predicate Proper(c: Cut) {
    && c.inf <= c.sup && Increasing(c.points)
    && forall i :: 0 <= i < |c.points| ==> c.inf < c.points[i] < c.sup
  }

  function Least(a: real, b: real): real {
    if b < a then b else a
  }

  function Greatest(a: real, b: real): real {
    if a < b then b else a
  }

  /** The intervals overlap or touch. */
  predicate Meet(a: Cut, b: Cut) {
    b.inf <= a.sup && a.inf <= b.sup
  }

  predicate IsEnd(c: Cut, x: real) {
    x == c.inf || x == c.sup
  }

  /** Where the merged interval is to be cut: at all points of both and at all ends of both, but
      not at its own ends. */
  ghost predicate CutAt(a: Cut, b: Cut, x: real) {
    && (x in a.points || x in b.points || IsEnd(a, x) || IsEnd(b, x))
    && x != Least(a.inf, b.inf) && x != Greatest(a.sup, b.sup)
  }

  /** One interval is a single point, the upper end of the other, longer one. */
  predicate PointAtTop(a: Cut, b: Cut) {
    Meet(a, b) && Greatest(a.inf, b.inf) == Greatest(a.sup, b.sup) && a.inf != b.inf
  }

  ghost predicate IsMerge(a: Cut, b: Cut, c: Cut) {
    && c.inf == Least(a.inf, b.inf) && c.sup == Greatest(a.sup, b.sup) && Increasing(c.points)
    && forall x: real :: x in c.points <==> CutAt(a, b, x) || (PointAtTop(a, b) && x == Greatest(a.sup, b.sup))
  }

  // ----- lists in order are determined by what is in them -----

  lemma {:induction false} SameElementsSameList(a: seq<real>, b: seq<real>)
    requires Increasing(a) && Increasing(b) && forall x: real :: x in a <==> x in b
    ensures a == b
    decreases |a|
  {
    assert b != [] ==> b[0] in b;
    if a != [] {
      assert a[0] in a;
      FirstIsLeast(b, a[0]);
      FirstIsLeast(a, b[0]);
      TailElements(a, b);
      SameElementsSameList(a[1..], b[1..]);
      assert a == [a[0]] + a[1..] && b == [b[0]] + b[1..];
    }
  }

  lemma FirstIsLeast(a: seq<real>, x: real)
    requires Increasing(a) && x in a
    ensures a[0] <= x
  {
    var i :| 0 <= i < |a| && a[i] == x;
    if i > 0 {
      assert a[0] < a[i];
    }
  }

  lemma TailElements(a: seq<real>, b: seq<real>)
    requires a != [] && b != [] && Increasing(a) && Increasing(b) && a[0] == b[0]
    requires forall x: real :: x in a <==> x in b
    ensures forall x: real :: x in a[1..] <==> x in b[1..]
  {
    forall x: real
      ensures x in a[1..] <==> x in b[1..]
    {
      InTail(a, x);
      InTail(b, x);
    }
  }

  lemma InTail(a: seq<real>, x: real)
    requires a != [] && Increasing(a)
    ensures x in a[1..] <==> x in a && x != a[0]
  {
    if x in a && x != a[0] {
      var i :| 0 <= i < |a| && a[i] == x;
      assert a[1..][i - 1] == x;
    }
    if x in a[1..] {
      var i :| 0 <= i < |a[1..]| && a[1..][i] == x;
      assert a[i + 1] == x;
    }
  }

  /** The merge of two cuts is determined. */
  lemma MergeUnique(a: Cut, b: Cut, c: Cut, d: Cut)
    requires IsMerge(a, b, c) && IsMerge(a, b, d)
    ensures c == d
  {
    SameElementsSameList(c.points, d.points);
  }

  /** ... and does not depend on their order. */
  lemma MergeCommutes(a: Cut, b: Cut, c: Cut, d: Cut)
    requires IsMerge(a, b, c) && IsMerge(b, a, d)
    ensures c == d
  {
    SameElementsSameList(c.points, d.points);
  }

  /** What comes out is again a proper cut, but for the point on top of the other. */
  lemma MergeIsProper(a: Cut, b: Cut, c: Cut)
    requires Proper(a) && Proper(b) && Meet(a, b) && IsMerge(a, b, c)
    ensures Proper(c) <==> !PointAtTop(a, b)
  {
    if PointAtTop(a, b) {
      assert c.sup in c.points;
    } else {
      forall i | 0 <= i < |c.points|
        ensures c.inf < c.points[i] < c.sup
      {
        assert c.points[i] in c.points;
      }
    }
  }

  lemma LongHaveNoPointAtTop(a: Cut, b: Cut)
    requires a.inf < a.sup && b.inf < b.sup
    ensures !PointAtTop(a, b)
  {
  }

  /** Merging is associative where everything that is merged meets. */
  lemma MergeAssociates(a: Cut, b: Cut, c: Cut, ab: Cut, bc: Cut, left: Cut, right: Cut)
    requires Proper(a) && Proper(b) && Proper(c) && a.inf < a.sup && b.inf < b.sup && c.inf < c.sup
    requires Meet(a, b) && Meet(b, c) && Meet(ab, c) && Meet(a, bc)
    requires IsMerge(a, b, ab) && IsMerge(b, c, bc) && IsMerge(ab, c, left) && IsMerge(a, bc, right)
    ensures left == right
  {
    forall x: real
      ensures x in left.points <==> x in right.points
    {
      CutTwice(a, b, c, ab, left, x);
      CutTwice(c, b, a, bc, right, x);
    }
    SameElementsSameList(left.points, right.points);
  }

  /** A point of three merged cuts is a point or an end of one of them, and not an outer end. */
  lemma CutTwice(a: Cut, b: Cut, c: Cut, ab: Cut, all: Cut, x: real)
    requires a.inf < a.sup && b.inf < b.sup && c.inf < c.sup && Proper(a) && Proper(b) && Proper(c)
    requires IsMerge(a, b, ab) || IsMerge(b, a, ab)
    requires IsMerge(ab, c, all) || IsMerge(c, ab, all)
    ensures all.inf == Least(Least(a.inf, b.inf), c.inf) && all.sup == Greatest(Greatest(a.sup, b.sup), c.sup)
    ensures x in all.points <==>
              && (x in a.points || x in b.points || x in c.points || IsEnd(a, x) || IsEnd(b, x) || IsEnd(c, x))
              && x != all.inf && x != all.sup
  {
    LongHaveNoPointAtTop(a, b);
    LongHaveNoPointAtTop(ab, c);
    assert x in ab.points <==> CutAt(a, b, x);
    assert x in all.points <==> CutAt(ab, c, x);
  }

  // ----- cuts with repeated points -----

  ghost predicate NotDescending(points: seq<real>) {
    forall i, j :: 0 <= i < j < |points| ==> points[i] <= points[j]
  }

  /** The points are in order, but may repeat, and may be the lower end: what a partition can come to
      hold by construction and insertion. */
  ghost predicate Loose(c: Cut) {
    && c.inf <= c.sup && NotDescending(c.points)
    && forall i :: 0 <= i < |c.points| ==> c.inf <= c.points[i] < c.sup
  }

  /** The ends that a merge adds. */
  ghost function AddedEnds(a: Cut, b: Cut): set<real> {
    (if a.inf != b.inf then {Greatest(a.inf, b.inf)} else {})
    + (if a.sup != b.sup && Least(a.sup, b.sup) != Greatest(a.inf, b.inf) then {Least(a.sup, b.sup)} else {})
  }

  function Most(a: nat, b: nat, c: nat): nat {
    if a >= b && a >= c then a else if b >= c then b else c
  }

  /** All points of both and the inner ends, in order. A point comes out as often as it is in the list
      that has it more often. */
  ghost predicate IsLooseMerge(a: Cut, b: Cut, c: Cut) {
    && c.inf == Least(a.inf, b.inf) && c.sup == Greatest(a.sup, b.sup) && NotDescending(c.points)
    && forall x: real :: CountedIn(c.points, a.points, b.points, AddedEnds(a, b), x)
  }

  ghost predicate CountedIn(out: seq<real>, l: seq<real>, r: seq<real>, extra: set<real>, x: real) {
    multiset(out)[x] == Most(multiset(l)[x], multiset(r)[x], if x in extra then 1 else 0)
  }

  /** What is in a merge, and when nothing repeats in it. */
  lemma LooseMergePoints(a: Cut, b: Cut, c: Cut)
    requires NotDescending(a.points) && NotDescending(b.points) && IsLooseMerge(a, b, c)
    ensures forall x: real :: x in c.points <==> x in a.points || x in b.points || x in AddedEnds(a, b)
    ensures Increasing(c.points) <==> Increasing(a.points) && Increasing(b.points)
  {
    hide NotDescending;
    forall x: real
      ensures x in c.points <==> x in a.points || x in b.points || x in AddedEnds(a, b)
      ensures multiset(c.points)[x] <= 1 <==> multiset(a.points)[x] <= 1 && multiset(b.points)[x] <= 1
    {
      assert CountedIn(c.points, a.points, b.points, AddedEnds(a, b), x);
      assert x in c.points <==> x in multiset(c.points);
      assert x in a.points <==> x in multiset(a.points);
      assert x in b.points <==> x in multiset(b.points);
    }
    OnceEach(a.points);
    OnceEach(b.points);
    OnceEach(c.points);
  }

  /** A list in order is strictly increasing exactly if nothing is in it twice. */
  lemma OnceEach(s: seq<real>)
    requires NotDescending(s)
    ensures Increasing(s) <==> forall x: real :: multiset(s)[x] <= 1
  {
    if Increasing(s) {
      forall x: real
        ensures multiset(s)[x] <= 1
      {
        OnceInIncreasing(s, x);
      }
    }
    if forall x: real :: multiset(s)[x] <= 1 {
      forall i, j | 0 <= i < j < |s|
        ensures s[i] < s[j]
      {
        if s[i] == s[j] {
          TwiceIfRepeated(s, i, j);
        }
      }
    }
  }

  /** The merge of two cuts is determined, repeated points included, and does not depend on their
      order. */
  lemma LooseMergeUnique(a: Cut, b: Cut, c: Cut, d: Cut)
    requires IsLooseMerge(a, b, c) && (IsLooseMerge(a, b, d) || IsLooseMerge(b, a, d))
    ensures c == d
  {
    forall x: real
      ensures multiset(c.points)[x] == multiset(d.points)[x]
    {
      assert CountedIn(c.points, a.points, b.points, AddedEnds(a, b), x);
      assert AddedEnds(a, b) == AddedEnds(b, a);
      assert CountedIn(d.points, a.points, b.points, AddedEnds(a, b), x)
          || CountedIn(d.points, b.points, a.points, AddedEnds(b, a), x);
    }
    assert multiset(c.points) == multiset(d.points);
    SameCountsSameList(c.points, d.points);
  }

  lemma {:induction false} SameCountsSameList(a: seq<real>, b: seq<real>)
    requires NotDescending(a) && NotDescending(b) && multiset(a) == multiset(b)
    ensures a == b
    decreases |a|
  {
    SameFirst(a, b);
    hide NotDescending;
    if a != [] {
      RestCounts(a);
      RestCounts(b);
      SameCountsSameList(a[1..], b[1..]);
    }
  }

  lemma SameFirst(a: seq<real>, b: seq<real>)
    requires NotDescending(a) && NotDescending(b) && multiset(a) == multiset(b)
    ensures a == [] <==> b == []
    ensures a != [] ==> b != [] && a[0] == b[0]
  {
    assert |multiset(a)| == |a| && |multiset(b)| == |b|;
    if a != [] {
      assert a[0] in multiset(b) && b[0] in multiset(a);
      LowestFirst(a, b[0]);
      LowestFirst(b, a[0]);
    }
  }

  lemma RestCounts(s: seq<real>)
    requires s != []
    ensures s == [s[0]] + s[1..] && multiset(s[1..]) == multiset(s) - multiset{s[0]}
    ensures NotDescending(s) ==> NotDescending(s[1..])
  {
    assert s == [s[0]] + s[1..];
  }

  lemma LowestFirst(a: seq<real>, x: real)
    requires NotDescending(a) && x in a
    ensures a[0] <= x
  {
  }

  /** For proper cuts this is the merge as described before. */
  lemma LooseMergeOfProper(a: Cut, b: Cut, c: Cut)
    requires Proper(a) && Proper(b) && Meet(a, b) && IsLooseMerge(a, b, c)
    ensures IsMerge(a, b, c)
  {
    ProperIsLoose(a);
    ProperIsLoose(b);
    LooseMergePoints(a, b, c);
    forall x: real
      ensures x in c.points <==> CutAt(a, b, x) || (PointAtTop(a, b) && x == Greatest(a.sup, b.sup))
    {
      Interior(a, x);
      Interior(b, x);
      hide Proper, NotDescending, Loose;
    }
  }

  lemma Interior(c: Cut, x: real)
    requires Proper(c)
    ensures x in c.points ==> c.inf < x < c.sup
  {
  }

  lemma ProperIsLoose(c: Cut)
    requires Proper(c)
    ensures Loose(c)
  {
  }

  lemma OnceInIncreasing(s: seq<real>, x: real)
    requires Increasing(s)
    ensures multiset(s)[x] <= 1
  {
    if x in s {
      var i :| 0 <= i < |s| && s[i] == x;
      NotElsewhere(s, i);
      hide Increasing;
      CountedOnce(s[..i], x, s[i + 1..]);
      assert s == s[..i] + [x] + s[i + 1..];
    }
  }

  lemma NotElsewhere(s: seq<real>, i: nat)
    requires Increasing(s) && i < |s|
    ensures s[i] !in s[..i] && s[i] !in s[i + 1..]
  {
    var after := s[i + 1..];
    assert forall k :: 0 <= k < |after| ==> after[k] == s[i + 1 + k];
  }

  lemma CountedOnce<T>(a: seq<T>, x: T, b: seq<T>)
    requires x !in a && x !in b
    ensures multiset(a + [x] + b)[x] == 1
  {
    assert multiset(a + [x] + b) == multiset(a) + multiset{x} + multiset(b);
  }

  lemma TwiceIfRepeated(s: seq<real>, i: nat, j: nat)
    requires i < j < |s| && s[i] == s[j]
    ensures multiset(s)[s[i]] >= 2
  {
    assert s == s[..j] + s[j..];
    assert s[..j][i] == s[i] && s[j..][0] == s[i];
  }

  // ----- the state of a merge -----

  /** Of two lists the first i and j points have been put out, with some extra ones. Nothing that is
      still to come is less than what is out, and if it is out already then as often as it has
      come from its own list. */
  ghost predicate State(out: seq<real>, l: seq<real>, i: nat, r: seq<real>, j: nat, extra: set<real>) {
    && i <= |l| && j <= |r| && NotDescending(out)
    && (forall x: real :: CountedIn(out, l[..i], r[..j], extra, x))
    && Next(out, l, i) && Next(out, r, j)
  }

  ghost predicate Next(out: seq<real>, l: seq<real>, i: nat) {
    i < |l| ==>
      (forall k :: 0 <= k < |out| ==> out[k] <= l[i]) && multiset(out)[l[i]] == multiset(l[..i])[l[i]]
  }

  lemma StateStarts(l: seq<real>, r: seq<real>)
    ensures State([], l, 0, r, 0, {})
  {
  }

  lemma StateMirrored(out: seq<real>, l: seq<real>, i: nat, r: seq<real>, j: nat, extra: set<real>)
    ensures State(out, l, i, r, j, extra) <==> State(out, r, j, l, i, extra)
  {
    forall x: real | i <= |l| && j <= |r|
      ensures CountedIn(out, l[..i], r[..j], extra, x) <==> CountedIn(out, r[..j], l[..i], extra, x)
    {
    }
  }

  lemma CountAppend(s: seq<real>, y: real, x: real)
    ensures multiset(s + [y])[x] == multiset(s)[x] + (if x == y then 1 else 0)
  {
  }

  lemma CountAbove(s: seq<real>, y: real)
    requires forall k :: 0 <= k < |s| ==> s[k] < y
    ensures multiset(s)[y] == 0
  {
    assert y !in s;
  }

  /** After its next point has gone out a list is still in line with what is out. */
  lemma NextTaken(out: seq<real>, l: seq<real>, i: nat)
    requires NotDescending(l) && i < |l| && Next(out, l, i)
    ensures Next(out + [l[i]], l, i + 1)
  {
    if i + 1 < |l| {
      var y := l[i + 1];
      assert l[..i + 1] == l[..i] + [l[i]];
      CountAppend(out, l[i], y);
      CountAppend(l[..i], l[i], y);
      if y != l[i] {
        CountAbove(out, y);
        CountAbove(l[..i], y);
      }
    }
  }

  /** A smaller point of another list does not put a list out of line. */
  lemma NextPassed(out: seq<real>, r: seq<real>, j: nat, y: real)
    requires Next(out, r, j) && (j < |r| ==> y < r[j])
    ensures Next(out + [y], r, j)
  {
    if j < |r| {
      CountAppend(out, y, r[j]);
    }
  }

  lemma LastGoesOn(out: seq<real>, l: seq<real>, i: nat)
    requires NotDescending(out) && i < |l| && Next(out, l, i)
    ensures NotDescending(out + [l[i]])
  {
  }

  lemma PutLeft(out: seq<real>, l: seq<real>, i: nat, r: seq<real>, j: nat, extra: set<real>)
    requires State(out, l, i, r, j, extra) && NotDescending(l) && i < |l| && (j < |r| ==> l[i] < r[j])
    ensures State(out + [l[i]], l, i + 1, r, j, extra)
  {
    assert l[..i + 1] == l[..i] + [l[i]];
    NextTaken(out, l, i);
    NextPassed(out, r, j, l[i]);
    LastGoesOn(out, l, i);
    var out', taken := out + [l[i]], l[..i + 1];
    forall x: real
      ensures CountedIn(out', taken, r[..j], extra, x)
    {
      assert CountedIn(out, l[..i], r[..j], extra, x);
      CountAppend(out, l[i], x);
      CountAppend(l[..i], l[i], x);
    }
    hide Next, NotDescending;
  }

  lemma PutBoth(out: seq<real>, l: seq<real>, i: nat, r: seq<real>, j: nat, extra: set<real>)
    requires State(out, l, i, r, j, extra) && NotDescending(l) && NotDescending(r) && i < |l| && j < |r| && l[i] == r[j]
    ensures State(out + [l[i]], l, i + 1, r, j + 1, extra)
  {
    assert l[..i + 1] == l[..i] + [l[i]] && r[..j + 1] == r[..j] + [l[i]];
    NextTaken(out, l, i);
    NextTaken(out, r, j);
    LastGoesOn(out, l, i);
    var out', left, right := out + [l[i]], l[..i + 1], r[..j + 1];
    forall x: real
      ensures CountedIn(out', left, right, extra, x)
    {
      assert CountedIn(out, l[..i], r[..j], extra, x);
      CountAppend(out, l[i], x);
      CountAppend(l[..i], l[i], x);
      CountAppend(r[..j], l[i], x);
    }
    hide Next, NotDescending;
  }

  function Skip(l: seq<real>, i: nat, x: real): nat {
    if i < |l| && l[i] == x then i + 1 else i
  }

  lemma SkipIndex(l: seq<real>, i: nat, x: real)
    requires i <= |l|
    ensures i <= Skip(l, i, x) <= |l|
    ensures Skip(l, i, x) == i || l[..Skip(l, i, x)] == l[..i] + [x]
  {
  }

  lemma NextSkipped(out: seq<real>, l: seq<real>, i: nat, x: real)
    requires NotDescending(l) && i <= |l| && Next(out, l, i) && (i < |l| ==> x <= l[i])
    ensures Next(out + [x], l, Skip(l, i, x))
  {
    if i < |l| && l[i] == x {
      NextTaken(out, l, i);
    } else {
      NextPassed(out, l, i, x);
    }
  }

  /** An extra point goes out, and the lists skip it if they have it next. */
  lemma PutExtra(out: seq<real>, l: seq<real>, i: nat, r: seq<real>, j: nat, extra: set<real>, x: real)
    requires State(out, l, i, r, j, extra) && NotDescending(l) && NotDescending(r)
    requires (forall k :: 0 <= k < |out| ==> out[k] < x) && (i < |l| ==> x <= l[i]) && (j < |r| ==> x <= r[j])
    ensures State(out + [x], l, Skip(l, i, x), r, Skip(r, j, x), extra + {x})
  {
    SkipIndex(l, i, x);
    SkipIndex(r, j, x);
    NextSkipped(out, l, i, x);
    NextSkipped(out, r, j, x);
    assert NotDescending(out + [x]);
    CountAbove(out, x);
    hide Next, NotDescending;
    forall y: real
      ensures CountedIn(out + [x], l[..Skip(l, i, x)], r[..Skip(r, j, x)], extra + {x}, y)
    {
      assert CountedIn(out, l[..i], r[..j], extra, y) && CountedIn(out, l[..i], r[..j], extra, x);
      CountAppend(out, x, y);
      CountAppend(l[..i], x, y);
      CountAppend(r[..j], x, y);
    }
  }

  /** A stretch of one list goes out. */
  lemma {:induction false} PutStretch(out: seq<real>, l: seq<real>, i: nat, i': nat, r: seq<real>, j: nat,
                                      extra: set<real>)
    requires State(out, l, i, r, j, extra) && NotDescending(l) && i <= i' <= |l|
    requires j < |r| ==> forall k :: i <= k < i' ==> l[k] < r[j]
    ensures State(out + l[i..i'], l, i', r, j, extra)
    decreases i' - i
  {
    hide State, NotDescending;
    if i == i' {
      assert out + l[i..i'] == out;
    } else {
      PutLeft(out, l, i, r, j, extra);
      PutStretch(out + [l[i]], l, i + 1, i', r, j, extra);
      assert out + l[i..i'] == out + [l[i]] + l[i + 1..i'];
    }
  }

  /** What is out comes from the lists or is extra. */
  lemma OutFrom(out: seq<real>, l: seq<real>, i: nat, r: seq<real>, j: nat, extra: set<real>, k: nat)
    requires State(out, l, i, r, j, extra) && k < |out|
    ensures out[k] in l[..i] || out[k] in r[..j] || out[k] in extra
  {
    var x := out[k];
    assert CountedIn(out, l[..i], r[..j], extra, x);
    assert x in multiset(out);
    assert x in l[..i] <==> x in multiset(l[..i]);
    assert x in r[..j] <==> x in multiset(r[..j]);
  }
}
