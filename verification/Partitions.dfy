/** Partitions of an interval: merging, refining and reading them. */
module Partitions {
  import opened Timeline
  import opened PartitionSets
  import opened Wrappers

  /** The piece of an ordered list up to a bound. */
  predicate Below(points: seq<real>, i: nat, i': nat, bound: real) {
    && i <= i' <= |points|
    && (forall k :: i <= k < i' ==> points[k] < bound)
    && (i' < |points| ==> points[i'] >= bound)
  }

  method TakeBelow(out: seq<real>, points: seq<real>, i: nat, bound: real) returns (out': seq<real>, i': nat)
    requires i <= |points|
    ensures Below(points, i, i', bound) && out' == out + points[i..i']
  {
    out', i' := out, i;
    while i' < |points| && points[i'] < bound
      invariant i <= i' <= |points| && out' == out + points[i..i']
      invariant forall k :: i <= k < i' ==> points[k] < bound
    {
      out' := out' + [points[i']];
      i' := i' + 1;
    }
  }

  method TakeRest(out: seq<real>, points: seq<real>, i: nat) returns (out': seq<real>)
    requires i <= |points|
    ensures out' == out + points[i..]
  {
    out' := out;
    for j := i to |points|
      invariant out' == out + points[i..j]
    {
      out' := out' + [points[j]];
    }
  }

  /** The first i points are below a bound, but perhaps for one known point. */
  ghost predicate LowOnly(points: seq<real>, i: nat, bound: real, known: real) {
    i <= |points| && forall k :: 0 <= k < i ==> points[k] < bound || points[k] == known
  }

  /** The middle loop: both lists together until one of them ends. */
  method Interleave(out: seq<real>, l: seq<real>, i: nat, r: seq<real>, j: nat,
                    ghost extra: set<real>, ghost lsup: real, ghost rsup: real, ghost known: real, ghost good: bool)
    returns (out': seq<real>, i': nat, j': nat)
    requires i <= |l| && j <= |r|
    requires good ==> NotDescending(l) && NotDescending(r) && State(out, l, i, r, j, extra)
    requires good ==> (forall k :: 0 <= k < |l| ==> l[k] < lsup) && (forall k :: 0 <= k < |r| ==> r[k] < rsup)
    requires good ==> LowOnly(l, i, Least(lsup, rsup), known) && LowOnly(r, j, Least(lsup, rsup), known)
    ensures i' <= |l| && j' <= |r| && (i' == |l| || j' == |r|)
    ensures good ==> State(out', l, i', r, j', extra)
    ensures good ==> LowOnly(l, i', Least(lsup, rsup), known) && LowOnly(r, j', Least(lsup, rsup), known)
  {
    hide State, NotDescending;
    out', i', j' := out, i, j;
    while i' != |l| && j' != |r|
      invariant i' <= |l| && j' <= |r|
      invariant good ==> State(out', l, i', r, j', extra)
      invariant good ==> LowOnly(l, i', Least(lsup, rsup), known) && LowOnly(r, j', Least(lsup, rsup), known)
      decreases |l| - i' + |r| - j'
    {
      if l[i'] == r[j'] {
        if good {
          PutBoth(out', l, i', r, j', extra);
        }
        out' := out' + [l[i']];
        i' := i' + 1;
        j' := j' + 1;
      } else if l[i'] < r[j'] {
        if good {
          PutLeft(out', l, i', r, j', extra);
        }
        out' := out' + [l[i']];
        i' := i' + 1;
      } else {
        if good {
          PutRight(out', l, i', r, j', extra);
        }
        out' := out' + [r[j']];
        j' := j' + 1;
      }
    }
  }

  lemma PutRight(out: seq<real>, l: seq<real>, i: nat, r: seq<real>, j: nat, extra: set<real>)
    requires State(out, l, i, r, j, extra) && NotDescending(r) && j < |r| && (i < |l| ==> r[j] < l[i])
    ensures State(out + [r[j]], l, i, r, j + 1, extra)
  {
    StateMirrored(out, l, i, r, j, extra);
    PutLeft(out, r, j, l, i, extra);
    StateMirrored(out + [r[j]], l, i, r, j + 1, extra);
  }

  lemma PutStretchRight(out: seq<real>, l: seq<real>, i: nat, r: seq<real>, j: nat, j': nat, extra: set<real>)
    requires State(out, l, i, r, j, extra) && NotDescending(r) && j <= j' <= |r|
    requires i < |l| ==> forall k :: j <= k < j' ==> r[k] < l[i]
    ensures State(out + r[j..j'], l, i, r, j', extra)
  {
    StateMirrored(out, l, i, r, j, extra);
    PutStretch(out, r, j, j', l, i, extra);
    StateMirrored(out + r[j..j'], l, i, r, j', extra);
  }

  // ----- the parts of a merge -----

  /** What is below the larger of the two lower ends, and that end itself. */
  method MergeLow(a: Cut, b: Cut, ghost good: bool) returns (out: seq<real>, i: nat, j: nat, ghost extra: set<real>)
    requires good ==> Loose(a) && Loose(b) && Meet(a, b)
    ensures i <= |a.points| && j <= |b.points|
    ensures good ==> State(out, a.points, i, b.points, j, extra)
    ensures extra == if a.inf != b.inf then {Greatest(a.inf, b.inf)} else {}
    ensures good ==> LowOnly(a.points, i, Least(a.sup, b.sup), Greatest(a.inf, b.inf))
    ensures good ==> LowOnly(b.points, j, Least(a.sup, b.sup), Greatest(a.inf, b.inf))
  {
    hide State, NotDescending, Proper, Below, LowOnly;
    out, i := TakeBelow([], a.points, 0, b.inf);
    out, j := TakeBelow(out, b.points, 0, a.inf);
    extra := {};
    if good {
      LowTaken(a, b, i, j);
      assert out == a.points[0..i] + b.points[0..j];
    }
    BelowIndex(a.points, 0, i, b.inf);
    BelowIndex(b.points, 0, j, a.inf);
    if a.inf != b.inf {
      var maxInf := Greatest(a.inf, b.inf);
      if good {
        LowEnd(a, b, i, j);
      }
      out := out + [maxInf];
      j := Skip(b.points, j, maxInf);
      i := Skip(a.points, i, maxInf);
      extra := extra + {maxInf};
    }
  }

  lemma BelowIndex(points: seq<real>, i: nat, i': nat, bound: real)
    requires Below(points, i, i', bound)
    ensures i <= i' <= |points|
  {
  }

  lemma LowTaken(a: Cut, b: Cut, i: nat, j: nat)
    requires Loose(a) && Loose(b) && Meet(a, b)
    requires Below(a.points, 0, i, b.inf) && Below(b.points, 0, j, a.inf)
    ensures State(a.points[0..i] + b.points[0..j], a.points, i, b.points, j, {})
    ensures LowOnly(a.points, i, Least(a.sup, b.sup), Greatest(a.inf, b.inf))
    ensures LowOnly(b.points, j, Least(a.sup, b.sup), Greatest(a.inf, b.inf))
  {
    var l, r := a.points, b.points;
    hide State;
    StateStarts(l, r);
    PutStretch([], l, 0, i, r, 0, {});
    assert [] + l[0..i] == l[0..i];
    PutStretchRight(l[0..i], l, i, r, 0, j, {});
  }

  lemma LowEnd(a: Cut, b: Cut, i: nat, j: nat)
    requires Loose(a) && Loose(b) && Meet(a, b) && a.inf != b.inf
    requires Below(a.points, 0, i, b.inf) && Below(b.points, 0, j, a.inf)
    requires State(a.points[0..i] + b.points[0..j], a.points, i, b.points, j, {})
    ensures var maxInf := Greatest(a.inf, b.inf);
            var i', j' := Skip(a.points, i, maxInf), Skip(b.points, j, maxInf);
            && State(a.points[0..i] + b.points[0..j] + [maxInf], a.points, i', b.points, j', {} + {maxInf})
            && LowOnly(a.points, i', Least(a.sup, b.sup), maxInf) && LowOnly(b.points, j', Least(a.sup, b.sup), maxInf)
  {
    var maxInf := Greatest(a.inf, b.inf);
    var out := a.points[0..i] + b.points[0..j];
    LowEndBounds(a, b, i, j);
    LooseOrder(a, b);
    hide State, Loose, NotDescending, Below, LowOnly;
    PutExtra(out, a.points, i, b.points, j, {}, maxInf);
  }

  lemma LowEndBounds(a: Cut, b: Cut, i: nat, j: nat)
    requires Loose(a) && Loose(b) && Meet(a, b) && a.inf != b.inf
    requires Below(a.points, 0, i, b.inf) && Below(b.points, 0, j, a.inf)
    ensures var maxInf := Greatest(a.inf, b.inf);
            var out := a.points[0..i] + b.points[0..j];
            && (forall k :: 0 <= k < |out| ==> out[k] < maxInf)
            && (i < |a.points| ==> maxInf <= a.points[i]) && (j < |b.points| ==> maxInf <= b.points[j])
            && LowOnly(a.points, Skip(a.points, i, maxInf), Least(a.sup, b.sup), maxInf)
            && LowOnly(b.points, Skip(b.points, j, maxInf), Least(a.sup, b.sup), maxInf)
  {
    var maxInf := Greatest(a.inf, b.inf);
    var out := a.points[0..i] + b.points[0..j];
    hide NotDescending;
    forall k | 0 <= k < |out|
      ensures out[k] < maxInf
    {
      assert k < i ==> out[k] == a.points[k];
      assert k >= i ==> out[k] == b.points[k - i];
    }
  }

  /** What is above, with the smaller of the two upper ends. */
  method MergeHigh(a: Cut, b: Cut, out0: seq<real>, i0: nat, j0: nat, ghost extra0: set<real>, ghost good: bool)
    returns (out: seq<real>, ghost extra: set<real>)
    requires i0 <= |a.points| && j0 <= |b.points| && (i0 == |a.points| || j0 == |b.points|)
    requires good ==> Loose(a) && Loose(b) && Meet(a, b) && extra0 <= {Greatest(a.inf, b.inf)}
    requires good ==> State(out0, a.points, i0, b.points, j0, extra0)
    requires good ==> LowOnly(a.points, i0, Least(a.sup, b.sup), Greatest(a.inf, b.inf))
    requires good ==> LowOnly(b.points, j0, Least(a.sup, b.sup), Greatest(a.inf, b.inf))
    ensures good ==> State(out, a.points, |a.points|, b.points, |b.points|, extra)
    ensures extra == extra0 + if a.sup != b.sup && Least(a.sup, b.sup) != Greatest(a.inf, b.inf) then
            {Least(a.sup, b.sup)} else {}
  {
    hide State, NotDescending, Proper, Below, LowOnly;
    var i, j;
    out, i := TakeBelow(out0, a.points, i0, b.sup);
    out, j := TakeBelow(out, b.points, j0, a.sup);
    extra := extra0;
    BelowIndex(a.points, i0, i, b.sup);
    BelowIndex(b.points, j0, j, a.sup);
    if good {
      HighTaken(a, b, out0, i0, i, j0, j, extra0);
    }
    var minSup := Least(a.sup, b.sup);
    if a.sup != b.sup && minSup != Greatest(a.inf, b.inf) {
      if good {
        HighEnd(a, b, out, i0, i, j0, j, extra);
      }
      SkipIndex(a.points, i, minSup);
      SkipIndex(b.points, j, minSup);
      out := out + [minSup];
      i := Skip(a.points, i, minSup);
      j := Skip(b.points, j, minSup);
      extra := extra + {minSup};
    }
    ghost var before := out;
    out := TakeRest(out, a.points, i);
    out := TakeRest(out, b.points, j);
    if good {
      RestTaken(a, b, before, i, j, extra);
    }
  }

  lemma HighTaken(a: Cut, b: Cut, out0: seq<real>, i0: nat, i: nat, j0: nat, j: nat, extra: set<real>)
    requires Loose(a) && Loose(b) && State(out0, a.points, i0, b.points, j0, extra)
    requires i0 == |a.points| || j0 == |b.points|
    requires Below(a.points, i0, i, b.sup) && Below(b.points, j0, j, a.sup)
    ensures State(out0 + a.points[i0..i] + b.points[j0..j], a.points, i, b.points, j, extra)
  {
    hide State;
    PutStretch(out0, a.points, i0, i, b.points, j0, extra);
    PutStretchRight(out0 + a.points[i0..i], a.points, i, b.points, j0, j, extra);
  }

  lemma HighEnd(a: Cut, b: Cut, out: seq<real>, i0: nat, i: nat, j0: nat, j: nat, extra: set<real>)
    requires Loose(a) && Loose(b) && Meet(a, b) && State(out, a.points, i, b.points, j, extra)
    requires extra <= {Greatest(a.inf, b.inf)}
    requires LowOnly(a.points, i0, Least(a.sup, b.sup), Greatest(a.inf, b.inf))
    requires LowOnly(b.points, j0, Least(a.sup, b.sup), Greatest(a.inf, b.inf))
    requires Below(a.points, i0, i, b.sup) && Below(b.points, j0, j, a.sup)
    requires Least(a.sup, b.sup) != Greatest(a.inf, b.inf)
    ensures var minSup := Least(a.sup, b.sup);
            State(out + [minSup], a.points, Skip(a.points, i, minSup), b.points, Skip(b.points, j, minSup),
                  extra + {minSup})
  {
    var minSup := Least(a.sup, b.sup);
    forall k | 0 <= k < |out|
      ensures out[k] < minSup
    {
      OutFrom(out, a.points, i, b.points, j, extra, k);
    }
    hide State;
    PutExtra(out, a.points, i, b.points, j, extra, minSup);
  }

  lemma RestTaken(a: Cut, b: Cut, out: seq<real>, i: nat, j: nat, extra: set<real>)
    requires Loose(a) && Loose(b) && State(out, a.points, i, b.points, j, extra)
    requires i == |a.points| || j == |b.points|
    ensures State(out + a.points[i..] + b.points[j..], a.points, |a.points|, b.points, |b.points|, extra)
  {
    LooseOrder(a, b);
    hide Loose, NotDescending;
    LeftRest(out, a.points, i, b.points, j, extra);
    RightRest(out + a.points[i..], a.points, b.points, j, extra);
  }

  lemma LeftRest(out: seq<real>, l: seq<real>, i: nat, r: seq<real>, j: nat, extra: set<real>)
    requires State(out, l, i, r, j, extra) && NotDescending(l) && (i == |l| || j == |r|)
    ensures i <= |l| && State(out + l[i..], l, |l|, r, j, extra)
  {
    assert i <= |l|;
    hide State, NotDescending;
    PutStretch(out, l, i, |l|, r, j, extra);
    assert l[i..|l|] == l[i..];
  }

  lemma RightRest(out: seq<real>, l: seq<real>, r: seq<real>, j: nat, extra: set<real>)
    requires State(out, l, |l|, r, j, extra) && NotDescending(r)
    ensures j <= |r| && State(out + r[j..], l, |l|, r, |r|, extra)
  {
    assert j <= |r|;
    hide State, NotDescending;
    PutStretchRight(out, l, |l|, r, j, |r|, extra);
    assert r[j..|r|] == r[j..];
  }

  lemma IsTheMerge(a: Cut, b: Cut, out: seq<real>, extra: set<real>)
    requires Loose(a) && Loose(b) && Meet(a, b) && extra == AddedEnds(a, b)
    requires State(out, a.points, |a.points|, b.points, |b.points|, extra)
    ensures IsLooseMerge(a, b, Cut(Least(a.inf, b.inf), Greatest(a.sup, b.sup), out))
  {
    assert a.points[..|a.points|] == a.points && b.points[..|b.points|] == b.points;
  }

  // ----- partitions -----

  class Partition {
    const inf: real
    const sup: real
    var points: seq<real>

    function Value(): Cut
      reads this
    {
      Cut(inf, sup, points)
    }

    constructor Cutting(inf: real, sup: real, points: seq<real>)
      ensures Value() == Cut(inf, sup, points)
    {
      this.inf, this.sup, this.points := inf, sup, points;
    }

    /** From any points: those strictly inside, in order. */
    constructor (inf: real, sup: real, points: seq<real>)
      ensures this.inf == inf && this.sup == sup
      ensures NotDescending(this.points)
      ensures forall x: real :: multiset(this.points)[x] == if inf < x < sup then multiset(points)[x] else 0
      ensures inf <= sup ==> Loose(Value())
    {
      forall x: real
        ensures multiset(InteriorOf(inf, sup, points))[x] == if inf < x < sup then multiset(points)[x] else 0
      {
        InteriorCounts(inf, sup, points, x);
      }
      SortedIsLoose(inf, sup, points);
      this.inf, this.sup := inf, sup;
      this.points := Sort(InteriorOf(inf, sup, points));
    }

    /** The common refinement of two partitions. Intervals that do not meet lose their points: only
        the ends that face the gap are kept. */
    method Merge(other: Partition) returns (result: Partition)
      ensures fresh(result)
      ensures Loose(Value()) && Loose(other.Value()) && Meet(Value(), other.Value()) ==>
                IsLooseMerge(Value(), other.Value(), result.Value())
      ensures Proper(Value()) && Proper(other.Value()) && Meet(Value(), other.Value()) ==>
                IsMerge(Value(), other.Value(), result.Value())
      ensures !Meet(Value(), other.Value()) ==>
                result.Value() == if sup < other.inf then AcrossGap(Value(), other.Value())
                    else AcrossGap(other.Value(), Value())
    {
      hide State, Proper, Loose, IsMerge, IsLooseMerge, LowOnly, AddedEnds;
      ghost var proper := Proper(Value()) && Proper(other.Value()) && Meet(Value(), other.Value());
      if proper {
        ProperIsLoose(Value());
        ProperIsLoose(other.Value());
      }
      var newInf, newSup := Least(inf, other.inf), Greatest(sup, other.sup);
      var out: seq<real> := [];
      if sup < other.inf {
        if sup != inf {
          out := out + [sup];
        }
        if other.inf != other.sup {
          out := out + [other.inf];
        }
      } else if other.sup < inf {
        if other.inf != other.sup {
          out := out + [other.sup];
        }
        if sup != inf {
          out := out + [inf];
        }
      } else {
        ghost var good := Loose(Value()) && Loose(other.Value()) && Meet(Value(), other.Value());
        var i, j;
        ghost var extra;
        out, i, j, extra := MergeLow(Value(), other.Value(), good);
        LooseOrder(Value(), other.Value());
        out, i, j := Interleave(out, points, i, other.points, j, extra, sup, other.sup, Greatest(inf, other.inf), good);
        out, extra := MergeHigh(Value(), other.Value(), out, i, j, extra, good);
        if good {
          AddedAre(Value(), other.Value(), extra);
          IsTheMerge(Value(), other.Value(), out, extra);
        }
        if proper {
          LooseMergeOfProper(Value(), other.Value(), Cut(newInf, newSup, out));
        }
      }
      result := new Partition.Cutting(newInf, newSup, out);
    }

    /** Puts a point in. It is refused if it is not in the interval. */
    method InsertIntermediate(x: real) returns (ok: bool)
      modifies this`points
      ensures ok <==> inf <= x < sup
      ensures !ok ==> points == old(points)
      ensures ok ==> multiset(points) == multiset(old(points)) + multiset{x}
      ensures ok && old(NotDescending(points)) ==> NotDescending(points)
      ensures ok && old(Loose(Value())) ==> Loose(Value())
      ensures ok && old(Proper(Value())) ==> (Proper(Value()) <==> x != inf && x !in old(points))
    {
      if !(inf <= x < sup) {
        return false;
      }
      var at := LowerBound(points, x);
      ghost var before := points;
      assert Inserted(before, x) == before[..at] + [x] + before[at..];
      if Loose(Value()) {
        InsertedIsLoose(Value(), at, x);
      }
      points := points[..at] + [x] + points[at..];
      hide Loose, Proper;
      InsertedProper(Value(), before, at, x);
      ok := true;
    }

    /** A midpoint into every piece. */
    method RefineMidpoints() returns (result: Partition)
      ensures fresh(result) && IsRefinement(Value(), result.Value())
    {
      var out: seq<real> := [];
      var prev := inf;
      for i := 0 to |points|
        invariant prev == End(Value(), i) && |out| == 2 * i
        invariant forall k :: 0 <= k < i ==> out[2 * k] == (End(Value(), k) + End(Value(), k + 1)) / 2.0
        invariant forall k :: 0 <= k < i ==> out[2 * k + 1] == points[k]
      {
        var mid := (points[i] + prev) / 2.0;
        out := out + [mid];
        out := out + [points[i]];
        prev := points[i];
      }
      out := out + [(sup + prev) / 2.0];
      result := new Partition.Cutting(inf, sup, out);
    }

    /** The least distance between neighbouring ends. */
    method Mesh() returns (mesh: real)
      ensures IsMesh(Value(), mesh)
    {
      var prev := inf;
      var best := -1;
      mesh := 0.0;
      for i := 0 to |points|
        invariant prev == End(Value(), i)
        invariant forall k :: 0 <= k < i ==> mesh <= Span(Value(), k)
        invariant i > 0 ==> 0 <= best < i && mesh == Span(Value(), best)
      {
        var diff := Distance(points[i], prev);
        if i == 0 || diff < mesh {
          mesh := diff;
          best := i;
        }
        prev := points[i];
      }
      var diff := Distance(sup, prev);
      if |points| == 0 || diff < mesh {
        mesh := diff;
        best := |points|;
      }
      assert mesh == Span(Value(), best);
    }

    /** The piece with a given number, if there is one. */
    method At(i: nat) returns (piece: Option<(real, real)>)
      ensures piece == if i <= |points| then Some((End(Value(), i), End(Value(), i + 1))) else None
    {
      if i > |points| {
        return None;
      }
      if |points| == 0 {
        return Some((inf, sup));
      }
      if i == 0 {
        return Some((inf, points[0]));
      }
      if i == |points| {
        return Some((points[|points| - 1], sup));
      }
      return Some((points[i - 1], points[i]));
    }
  }

  function AcrossGap(low: Cut, high: Cut): Cut {
    Cut(Least(low.inf, high.inf), Greatest(low.sup, high.sup),
        (if low.sup != low.inf then [low.sup] else []) + (if high.inf != high.sup then [high.inf] else []))
  }

  /** Across a gap nothing is lost exactly if there were no points inside. */
  lemma AcrossGapKeepsCuts(low: Cut, high: Cut)
    requires Proper(low) && Proper(high) && low.sup < high.inf
    ensures IsMerge(low, high, AcrossGap(low, high)) <==> low.points == [] && high.points == []
  {
    var c := AcrossGap(low, high);
    if low.points != [] {
      assert CutAt(low, high, low.points[0]);
      assert low.points[0] !in c.points;
    } else if high.points != [] {
      assert CutAt(low, high, high.points[0]);
      assert high.points[0] !in c.points;
    }
  }

  lemma LooseOrder(a: Cut, b: Cut)
    ensures Loose(a) ==> NotDescending(a.points) && forall k :: 0 <= k < |a.points| ==> a.points[k] < a.sup
    ensures Loose(b) ==> NotDescending(b.points) && forall k :: 0 <= k < |b.points| ==> b.points[k] < b.sup
  {
  }

  lemma AddedAre(a: Cut, b: Cut, extra: set<real>)
    requires extra == (if a.inf != b.inf then {Greatest(a.inf, b.inf)} else {})
                      + (if a.sup != b.sup && Least(a.sup, b.sup) != Greatest(a.inf, b.inf) then
                         {Least(a.sup, b.sup)} else {})
    ensures extra == AddedEnds(a, b)
  {
  }

  // ----- pieces -----

  /** The ends of the pieces: the lower end, the points, the upper end. */
  function End(c: Cut, i: nat): real {
    if i == 0 then c.inf else if i <= |c.points| then c.points[i - 1] else c.sup
  }

  function Gap(c: Cut, i: nat): real {
    End(c, i + 1) - End(c, i)
  }

  /** The length of a piece, whatever the order of its ends. */
  function Span(c: Cut, i: nat): real {
    Distance(End(c, i + 1), End(c, i))
  }

  function Distance(a: real, b: real): real {
    if a < b then b - a else a - b
  }

  lemma GapPositive(c: Cut, i: nat)
    requires Proper(c) && i <= |c.points|
    ensures Gap(c, i) >= 0.0 && Span(c, i) == Gap(c, i)
    ensures c.inf < c.sup ==> Gap(c, i) > 0.0
  {
  }

  /** Every number of the interval is in exactly one piece. */
  lemma PiecesCoverOnce(c: Cut, x: real) returns (i: nat)
    requires Proper(c) && c.inf <= x < c.sup
    ensures i <= |c.points| && End(c, i) <= x < End(c, i + 1)
    ensures forall j :: 0 <= j <= |c.points| && j != i ==> !(End(c, j) <= x < End(c, j + 1))
  {
    i := LowerBound(c.points, x);
    if i < |c.points| && c.points[i] == x {
      i := i + 1;
    }
    forall j | 0 <= j <= |c.points| && j != i
      ensures !(End(c, j) <= x < End(c, j + 1))
    {
      EndsOrdered(c, if j < i then j + 1 else i + 1, if j < i then i else j);
    }
  }

  lemma EndsOrdered(c: Cut, i: nat, j: nat)
    requires Proper(c) && i <= j <= |c.points| + 1
    ensures End(c, i) <= End(c, j)
  {
  }

  /** A refined partition has every piece cut in half. */
  lemma RefinedHalves(c: Cut, refined: Cut, i: nat)
    requires IsRefinement(c, refined) && i <= |c.points|
    ensures Gap(refined, 2 * i) == Gap(c, i) / 2.0 && Gap(refined, 2 * i + 1) == Gap(c, i) / 2.0
  {
    if i > 0 {
      assert refined.points[2 * (i - 1) + 1] == c.points[i - 1];
    }
    assert refined.points[2 * i] == (End(c, i) + End(c, i + 1)) / 2.0;
  }

  ghost predicate GapsPositive(c: Cut) {
    forall i :: 0 <= i <= |c.points| ==> Gap(c, i) > 0.0
  }

  lemma {:induction false} EndsClimb(c: Cut, i: nat, j: nat)
    requires GapsPositive(c) && i < j <= |c.points| + 1
    ensures End(c, i) < End(c, j)
    decreases j - i
  {
    assert Gap(c, j - 1) > 0.0;
    if i < j - 1 {
      EndsClimb(c, i, j - 1);
    }
  }

  /** A partition of a proper interval is proper exactly if all its pieces have a length. */
  lemma ProperIsPositiveGaps(c: Cut)
    requires c.inf < c.sup
    ensures Proper(c) <==> GapsPositive(c)
  {
    if Proper(c) {
      forall i | 0 <= i <= |c.points|
        ensures Gap(c, i) > 0.0
      {
        GapPositive(c, i);
      }
    }
    if GapsPositive(c) {
      forall i, j | 0 <= i < j < |c.points|
        ensures c.points[i] < c.points[j]
      {
        EndsClimb(c, i + 1, j + 1);
      }
      forall i | 0 <= i < |c.points|
        ensures c.inf < c.points[i] < c.sup
      {
        EndsClimb(c, 0, i + 1);
        EndsClimb(c, i + 1, |c.points| + 1);
      }
    }
  }

  ghost predicate IsMesh(c: Cut, mesh: real) {
    && (forall i :: 0 <= i <= |c.points| ==> mesh <= Span(c, i))
    && (exists i :: 0 <= i <= |c.points| && mesh == Span(c, i))
  }

  ghost predicate IsRefinement(c: Cut, refined: Cut) {
    && refined.inf == c.inf && refined.sup == c.sup && |refined.points| == 2 * |c.points| + 1
    && (forall i :: 0 <= i <= |c.points| ==> refined.points[2 * i] == (End(c, i) + End(c, i + 1)) / 2.0)
    && (forall i :: 0 <= i < |c.points| ==> refined.points[2 * i + 1] == c.points[i])
  }

  /** Refining keeps a partition proper and halves its mesh. */
  lemma RefinementHalvesMesh(c: Cut, refined: Cut, mesh: real)
    requires c.inf < c.sup && Proper(c) && IsRefinement(c, refined) && IsMesh(c, mesh)
    ensures Proper(refined) && IsMesh(refined, mesh / 2.0)
  {
    hide Gap, Proper, Span;
    forall i | 0 <= i <= |refined.points|
      ensures mesh / 2.0 <= Gap(refined, i) && Gap(refined, i) > 0.0
    {
      HalfGap(c, refined, i);
      GapPositive(c, i / 2);
    }
    ProperIsPositiveGaps(refined);
    var i :| 0 <= i <= |c.points| && mesh == Span(c, i);
    GapPositive(c, i);
    RefinedHalves(c, refined, i);
    forall i | 0 <= i <= |refined.points|
      ensures Span(refined, i) == Gap(refined, i)
    {
      GapPositive(refined, i);
    }
    assert mesh / 2.0 == Span(refined, 2 * i);
  }

  /** The mesh is the length of the largest piece, as its documentation has it, exactly if all pieces
      have the same length. */
  lemma MeshIsLargestExactly(c: Cut, mesh: real)
    requires IsMesh(c, mesh)
    ensures (forall i :: 0 <= i <= |c.points| ==> Span(c, i) <= mesh) <==>
              (forall i, j :: 0 <= i <= |c.points| && 0 <= j <= |c.points| ==> Span(c, i) == Span(c, j))
  {
    hide Span;
    var k :| 0 <= k <= |c.points| && mesh == Span(c, k);
    if forall i :: 0 <= i <= |c.points| ==> Span(c, i) <= mesh {
      forall i, j | 0 <= i <= |c.points| && 0 <= j <= |c.points|
        ensures Span(c, i) == Span(c, j)
      {
        assert Span(c, i) == mesh && Span(c, j) == mesh;
      }
    }
  }

  /** [0, 3) cut at 1: the mesh is 1, and the second piece has length 2. */
  lemma MeshOfTwoPieces()
    ensures var c := Cut(0.0, 3.0, [1.0]);
            Proper(c) && Span(c, 1) == 2.0 && forall mesh :: IsMesh(c, mesh) <==> mesh == 1.0
  {
    var c := Cut(0.0, 3.0, [1.0]);
    assert Span(c, 0) == 1.0 && Span(c, 1) == 2.0;
    forall mesh: real
      ensures IsMesh(c, mesh) <==> mesh == 1.0
    {
      hide Span;
    }
  }

  lemma HalfGap(c: Cut, refined: Cut, i: nat)
    requires IsRefinement(c, refined) && i <= |refined.points|
    ensures i / 2 <= |c.points| && Gap(refined, i) == Gap(c, i / 2) / 2.0
  {
    hide IsRefinement;
    RefinedLength(c, refined);
    RefinedHalves(c, refined, i / 2);
    hide Gap;
    assert i == 2 * (i / 2) || i == 2 * (i / 2) + 1;
  }

  lemma RefinedLength(c: Cut, refined: Cut)
    requires IsRefinement(c, refined)
    ensures |refined.points| == 2 * |c.points| + 1
  {
  }

  // ----- the order of points -----

  function InteriorOf(inf: real, sup: real, points: seq<real>): seq<real> {
    if points == [] then []
    else (if inf < points[0] < sup then [points[0]] else []) + InteriorOf(inf, sup, points[1..])
  }

  /** Inside points are kept as often as they are given, and no others are. */
  lemma {:induction false} InteriorCounts(inf: real, sup: real, points: seq<real>, x: real)
    ensures multiset(InteriorOf(inf, sup, points))[x] == if inf < x < sup then multiset(points)[x] else 0
    decreases |points|
  {
    if points != [] {
      InteriorCounts(inf, sup, points[1..], x);
      assert points == [points[0]] + points[1..];
    }
  }

  lemma InteriorIsInside(inf: real, sup: real, points: seq<real>)
    ensures forall x: real :: x in multiset(InteriorOf(inf, sup, points)) ==> inf < x < sup
    ensures forall x: real :: x in Sort(InteriorOf(inf, sup, points)) ==> inf < x < sup
  {
    var inner := InteriorOf(inf, sup, points);
    forall x: real | x in Sort(inner)
      ensures x in multiset(inner)
    {
      assert x in multiset(Sort(inner));
    }
  }

  lemma SortedIsLoose(inf: real, sup: real, points: seq<real>)
    ensures inf <= sup ==> Loose(Cut(inf, sup, Sort(InteriorOf(inf, sup, points))))
  {
    InteriorIsInside(inf, sup, points);
    var sorted := Sort(InteriorOf(inf, sup, points));
    hide Sort, InteriorOf;
    forall i | 0 <= i < |sorted|
      ensures inf < sorted[i] < sup
    {
      assert sorted[i] in sorted;
    }
  }

  lemma InsertedIsLoose(c: Cut, at: nat, x: real)
    requires Loose(c) && c.inf <= x < c.sup && at == LowerBound(c.points, x)
    ensures Loose(Cut(c.inf, c.sup, c.points[..at] + [x] + c.points[at..]))
  {
    InsertedInOrder(c.points, at, x);
    var after := c.points[..at] + [x] + c.points[at..];
    hide NotDescending;
    forall i | 0 <= i < |after|
      ensures c.inf <= after[i] < c.sup
    {
      assert i < at ==> after[i] == c.points[i];
      assert i > at ==> after[i] == c.points[i - 1];
    }
  }

  /** `std::sort`. */
  function Sort(points: seq<real>): (r: seq<real>)
    ensures NotDescending(r) && multiset(r) == multiset(points)
  {
    if points == [] then []
    else
      assert points == [points[0]] + points[1..];
      Inserted(Sort(points[1..]), points[0])
  }

  function Inserted(points: seq<real>, x: real): (r: seq<real>)
    ensures multiset(r) == multiset(points) + multiset{x}
    ensures NotDescending(points) ==> NotDescending(r)
  {
    var at := LowerBound(points, x);
    InsertedInOrder(points, at, x);
    assert points == points[..at] + points[at..];
    hide NotDescending;
    points[..at] + [x] + points[at..]
  }

  lemma InsertedInOrder(before: seq<real>, at: nat, x: real)
    requires at == LowerBound(before, x)
    ensures NotDescending(before) ==> NotDescending(before[..at] + [x] + before[at..])
  {
    if NotDescending(before) && at < |before| {
      forall j | at <= j < |before|
        ensures before[j] >= x
      {
        assert before[at] <= before[j];
      }
    }
  }

  /** Putting a point in keeps a partition proper exactly if the point is new and not the lower end. */
  lemma InsertedProper(after: Cut, before: seq<real>, at: nat, x: real)
    requires after.inf <= x < after.sup && at == LowerBound(before, x)
    requires after.points == before[..at] + [x] + before[at..]
    ensures Proper(Cut(after.inf, after.sup, before)) ==> (Proper(after) <==> x != after.inf && x !in before)
  {
    if Proper(Cut(after.inf, after.sup, before)) {
      if x in before {
        InsertedTwice(after, before, at, x);
      } else if x == after.inf {
        assert after.points[at] == x;
      } else {
        InsertedInside(after, before, at, x);
      }
    }
  }

  lemma InsertedTwice(after: Cut, before: seq<real>, at: nat, x: real)
    requires Increasing(before) && x in before && at == LowerBound(before, x)
    requires after.points == before[..at] + [x] + before[at..]
    ensures !Proper(after)
  {
    var k :| 0 <= k < |before| && before[k] == x;
    assert k >= at;
    assert after.points[at] == x && after.points[k + 1] == x;
  }

  lemma InsertedInside(after: Cut, before: seq<real>, at: nat, x: real)
    requires Proper(Cut(after.inf, after.sup, before)) && after.inf < x < after.sup && x !in before
    requires at == LowerBound(before, x) && after.points == before[..at] + [x] + before[at..]
    ensures Proper(after)
  {
    InsertedIncreasing(before, at, x);
    hide Increasing;
    forall k | 0 <= k < |after.points|
      ensures after.inf < after.points[k] < after.sup
    {
      assert k < at ==> after.points[k] == before[k];
      assert k > at ==> after.points[k] == before[k - 1];
    }
  }

  lemma InsertedIncreasing(before: seq<real>, at: nat, x: real)
    requires Increasing(before) && at == LowerBound(before, x) && x !in before
    ensures Increasing(before[..at] + [x] + before[at..])
  {
    forall j | at <= j < |before|
      ensures before[j] > x
    {
      assert before[at] <= before[j] && before[at] in before;
    }
  }
}
