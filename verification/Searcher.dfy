/** The segment searcher: finds where a predicate on dyadic intervals holds, depth by depth
    and right to left, growing every find as far as it goes. */
module Searcher {
  import opened Powers
  import opened Dyadics
  import opened DyadicIntervals
  import opened SegmentRuns
  import opened SearchProgress
  import opened ScaledPredicates
  import opened Wrappers

  class DyadicSearcher {
    const maxDepth: nat
    var seen: seq<Seen>

    // The grains each entry spans and the accepted pieces it was put together from.
    ghost var spans: seq<(int, int)>
    ghost var finds: seq<seq<DyadicInterval>>

    ghost predicate Consistent(p: Predicate)
      reads this
    {
      Matches(p, maxDepth, seen, spans, finds)
    }

    constructor (maxDepth: nat)
      ensures this.maxDepth == maxDepth
      ensures seen == [] && spans == [] && finds == []
    {
      this.maxDepth := maxDepth;
      seen, spans, finds := [], [], [];
    }

    /** Grows a find to the left by ever smaller pieces. If the interval the halving starts from
        is not accepted, a bad grain ends up just left of the find. */
    method ExpandLeft(accept: Predicate, current: seq<DyadicInterval>, ghost lo: int, ghost hi: int)
      returns (grown: seq<DyadicInterval>, ghost lo': int)
      requires Chain(accept, maxDepth, current, lo, hi)
      ensures Chain(accept, maxDepth, grown, lo', hi) && lo' <= lo
      ensures SameLast(grown, current)
      ensures Coherent(accept, maxDepth) && !accept(LeftCandidate(accept, current[0])) ==>
                !GoodBefore(accept, maxDepth, lo')
    {
      var di := current[0];
      grown, lo' := current, lo;
      ChainEnds(accept, maxDepth, current, lo, hi);
      NeighbourWindows(di, maxDepth);
      var isAligned := di.Aligned();
      di := di.Previous();
      if isAligned {
        if accept(di) {
          grown, lo' := PushFront(accept, grown, di, lo', hi);
          NeighbourWindows(di, maxDepth);
          di := di.Previous();
        }
      }
      grown, lo' := HalveLeft(accept, grown, di, lo', hi);
    }

    /** The halving loop: adjacent pieces of half the length each time. */
    method HalveLeft(accept: Predicate, current: seq<DyadicInterval>, start: DyadicInterval, ghost lo: int,
                     ghost hi: int)
      returns (grown: seq<DyadicInterval>, ghost lo': int)
      requires Chain(accept, maxDepth, current, lo, hi)
      requires start.power <= maxDepth && start.Hi(maxDepth) == lo
      ensures Chain(accept, maxDepth, grown, lo', hi) && lo' <= lo
      ensures SameLast(grown, current)
      ensures Coherent(accept, maxDepth) && !accept(start) ==> !GoodBefore(accept, maxDepth, lo')
    {
      var di := start;
      grown, lo' := current, lo;
      while di.power < maxDepth
        invariant di.power <= maxDepth && di.Hi(maxDepth) == lo' && lo' <= lo
        invariant Chain(accept, maxDepth, grown, lo', hi)
        invariant SameLast(grown, current)
        invariant Coherent(accept, maxDepth) && !accept(start) ==> !accept(di)
        decreases maxDepth - di.power
      {
        HalvesAre(di);
        HalfWindows(di, maxDepth);
        assert Coherent(accept, maxDepth) ==> Splits(accept, di);
        var left := di.ShrinkToContainedEnd();
        di := di.ShrinkToOmittedEnd();
        if accept(di) {
          grown, lo' := PushFront(accept, grown, di, lo', hi);
          di := left;
        }
      }
      GrainDecided(accept, di, maxDepth);
    }

    method PushFront(accept: Predicate, pieces: seq<DyadicInterval>, di: DyadicInterval, ghost lo: int, ghost hi: int)
      returns (pushed: seq<DyadicInterval>, ghost lo': int)
      requires Chain(accept, maxDepth, pieces, lo, hi)
      requires di.power <= maxDepth && accept(di) && di.Hi(maxDepth) == lo
      ensures pushed == [di] + pieces && lo' == di.Lo(maxDepth) < lo
      ensures forall s: seq<DyadicInterval> :: SameLast(pieces, s) ==> SameLast(pushed, s)
      ensures Chain(accept, maxDepth, pushed, lo', hi)
    {
      ChainFront(accept, maxDepth, di, pieces, lo, hi);
      WindowLength(di, maxDepth);
      pushed, lo' := [di] + pieces, di.Lo(maxDepth);
    }

    /** Grows a find to the right; the neighbour of the same length is not looked at whole. */
    method ExpandRight(accept: Predicate, current: seq<DyadicInterval>, ghost lo: int, ghost hi: int)
      returns (grown: seq<DyadicInterval>, ghost hi': int)
      requires Chain(accept, maxDepth, current, lo, hi)
      ensures Chain(accept, maxDepth, grown, lo, hi') && hi <= hi'
      ensures Coherent(accept, maxDepth) && !accept(current[|current| - 1].Next()) ==>
                !Good(accept, maxDepth, hi')
    {
      var di := current[|current| - 1];
      grown, hi' := current, hi;
      ChainEnds(accept, maxDepth, current, lo, hi);
      NeighbourWindows(di, maxDepth);
      di := di.Next();
      ghost var blocked := Coherent(accept, maxDepth) && !accept(di);
      while di.power < maxDepth
        invariant di.power <= maxDepth && di.Lo(maxDepth) == hi' && hi <= hi'
        invariant Chain(accept, maxDepth, grown, lo, hi')
        invariant blocked ==> Coherent(accept, maxDepth) && !accept(di)
        decreases maxDepth - di.power
      {
        HalvesAre(di);
        HalfWindows(di, maxDepth);
        assert blocked ==> Splits(accept, di);
        var right := di.ShrinkToOmittedEnd();
        di := di.ShrinkToContainedEnd();
        if accept(di) {
          ChainBack(accept, maxDepth, di, grown, lo, hi');
          WindowLength(di, maxDepth);
          grown, hi' := grown + [di], di.Hi(maxDepth);
          di := right;
        }
      }
      GrainDecided(accept, di, maxDepth);
    }

    /** Skips what has been found already; the search moves strictly to the left. */
    method GetNextDyadic(accept: Predicate, current: DyadicInterval) returns (next: DyadicInterval)
      requires Consistent(accept) && current.power <= maxDepth
      ensures next.power == current.power && next.multiplier < current.multiplier
      ensures NoneCovers(spans, next, maxDepth) && (spans == [] ==> next.multiplier == current.multiplier - 1)
      ensures Coherent(accept, maxDepth) && AllRuns(accept, maxDepth, spans) ==>
                SkipsOnlySettled(accept, spans, current.multiplier, next.multiplier, current.power, maxDepth)
    {
      hide Coherent, AllRuns, SkipsOnlySettled, NoneCovers, StrictLess, StrictGreater;
      var k, n := current.multiplier, current.power;
      ghost var sound := Coherent(accept, maxDepth) && AllRuns(accept, maxDepth, spans);
      ghost var left := DyadicInterval(k - 1, n).Lo(maxDepth);
      SkipsNothing(accept, spans, k, n, maxDepth);
      var i := 0;
      while i < |seen|
        invariant 0 <= i <= |seen| && k <= current.multiplier && (i == 0 ==> k == current.multiplier)
        invariant left == DyadicInterval(k - 1, n).Lo(maxDepth)
        invariant forall j :: 0 <= j < i ==> left < spans[j].0
        invariant sound ==> SkipsOnlySettled(accept, spans, current.multiplier, k - 1, n, maxDepth)
      {
        var pair := seen[i];
        var here := Dyadic(k, n);
        ComparesGrains(here, pair.inf, maxDepth);
        ComparesGrains(here, pair.sup, maxDepth);
        LoMono(k - 1, k, n, maxDepth);
        if !StrictLess(here, pair.inf) {
          if !StrictGreater(here, pair.sup) {
            ghost var k0 := k;
            if n < pair.inf.power {
              k := Up(pair.inf.multiplier, pair.inf.power - n);
            } else if n > pair.inf.power {
              k := Shift(pair.inf.multiplier, n - pair.inf.power);
            } else {
              k := pair.inf.multiplier;
            }
            JumpsToStart(pair.inf, n, k0, k, maxDepth);
            JumpSettles(accept, spans, i, pair.inf, n, k0, k);
            SkipsJoin(accept, spans, current.multiplier, k0, k, n, maxDepth);
            LoMono(k - 1, k0 - 1, n, maxDepth);
            left := DyadicInterval(k - 1, n).Lo(maxDepth);
          } else {
            next := DyadicInterval(k - 1, n);
            CandidateIsNew(spans, i, next, maxDepth);
            return;
          }
        }
        i := i + 1;
      }
      next := DyadicInterval(k - 1, n);
      CandidateIsNew(spans, i, next, maxDepth);
    }

    lemma JumpSettles(accept: Predicate, spans: seq<(int, int)>, i: nat, inf: Dyadic, n: int, k0: int, k: int)
      requires i < |spans| && n <= maxDepth && inf.power <= maxDepth && inf.Scaled(maxDepth) == spans[i].0
      requires DyadicInterval(k0, n).Lo(maxDepth) <= spans[i].1 && k == Rounded(inf, n).multiplier
      ensures Coherent(accept, maxDepth) && AllRuns(accept, maxDepth, spans) ==>
                SkipsOnlySettled(accept, spans, k0, k - 1, n, maxDepth)
    {
      if Coherent(accept, maxDepth) && AllRuns(accept, maxDepth, spans) {
        forall j | k <= j < k0 && InUnit(DyadicInterval(j, n))
          ensures Settled(accept, spans, DyadicInterval(j, n), maxDepth)
        {
          JumpMissesNothing(accept, maxDepth, spans[i], inf, n, k0, j);
        }
      }
    }

    /** m_seen[sup] = inf, for a map ordered by descending end. */
    method Record(accept: Predicate, entry: Seen, ghost span: (int, int), ghost find: seq<DyadicInterval>)
      returns (ghost at: nat, ghost inserted: bool)
      requires Consistent(accept)
      requires entry.Spans(maxDepth, span) && Chain(accept, maxDepth, find, span.0, span.1)
      modifies this
      ensures Consistent(accept)
      ensures Recorded(old(spans), spans, at, span, inserted)
      ensures !inserted ==> at < |old(spans)| && old(spans)[at].1 == span.1
    {
      var i := 0;
      while i < |seen| && StrictGreater(seen[i].sup, entry.sup)
        invariant 0 <= i <= |seen| && unchanged(this)
        invariant forall j :: 0 <= j < i ==> spans[j].1 > span.1
      {
        ComparesGrains(seen[i].sup, entry.sup, maxDepth);
        i := i + 1;
      }
      at := i;
      inserted := true;
      if i < |seen| {
        ComparesGrains(seen[i].sup, entry.sup, maxDepth);
        ComparesGrains(entry.sup, seen[i].sup, maxDepth);
        inserted := StrictGreater(entry.sup, seen[i].sup);
      }
      RecordKeepsMatch(accept, maxDepth, seen, spans, finds, at, entry, span, find);
      if i == |seen| || StrictGreater(entry.sup, seen[i].sup) {
        seen := seen[..i] + [entry] + seen[i..];
        spans := spans[..i] + [span] + spans[i..];
        finds := finds[..i] + [find] + finds[i..];
      } else {
        RecordKeepsMatch(accept, maxDepth, seen, spans, finds, at, Seen(seen[i].sup, entry.inf), span, find);
        seen := seen[i := Seen(seen[i].sup, entry.inf)];
        spans := spans[i := span];
        finds := finds[i := find];
      }
    }

    /** Grows a find both ways and records it. */
    method Expand(accept: Predicate, found: DyadicInterval)
      returns (ghost at: nat, ghost span: (int, int), ghost inserted: bool)
      requires Consistent(accept) && found.power <= maxDepth && accept(found)
      modifies this
      ensures Consistent(accept)
      ensures Recorded(old(spans), spans, at, span, inserted)
      ensures !inserted ==> at < |old(spans)| && old(spans)[at].1 == span.1
      ensures CoversWindow(span, found, maxDepth)
      ensures Coherent(accept, maxDepth) ==> AllGood(accept, maxDepth, span.0, span.1)
      ensures Coherent(accept, maxDepth) && !accept(LeftCandidate(accept, found)) ==>
                !GoodBefore(accept, maxDepth, span.0)
      ensures Coherent(accept, maxDepth) && !accept(found.Next()) ==> !Good(accept, maxDepth, span.1)
    {
      ChainOne(accept, maxDepth, found);
      var left, lo := ExpandLeft(accept, [found], found.Lo(maxDepth), found.Hi(maxDepth));
      var both, hi := ExpandRight(accept, left, lo, found.Hi(maxDepth));
      ChainEnds(accept, maxDepth, both, lo, hi);
      span := (lo, hi);
      if Coherent(accept, maxDepth) {
        ChainAllGood(accept, maxDepth, both, lo, hi);
      }
      at, inserted := Record(accept, Seen(both[|both| - 1].ExcludedEnd(), both[0].IncludedEnd()), span, both);
    }

    /** One depth: right to left over the candidates that have not been found yet. */
    method SearchDepth(accept: Predicate, depth: nat)
      requires Consistent(accept) && 1 <= depth <= maxDepth
      modifies this
      ensures Consistent(accept)
      ensures old(Exact(accept, maxDepth, spans, depth - 1)) ==> Exact(accept, maxDepth, spans, depth)
      ensures spans == [] <==> old(spans) == [] && RejectedRightOf(accept, -1, depth)
      ensures old(MeetUnit(spans, maxDepth)) ==> MeetUnit(spans, maxDepth)
    {
      hide MeetUnit, RejectedRightOf;
      RejectedStart(accept, depth, Pow2(depth) - 1);
      ghost var exact := Exact(accept, maxDepth, spans, depth - 1);
      var check := GetNextDyadic(accept, DyadicInterval(Pow2(depth), depth));
      if exact {
        NothingRightOfUnit(accept, maxDepth, spans, depth);
        MoveKeepsProgress(accept, maxDepth, spans, depth, Pow2(depth), check.multiplier);
      }
      while check.multiplier >= 0
        invariant Consistent(accept) && check.power == depth
        invariant NoneCovers(spans, check, maxDepth)
        invariant exact ==> Progress(accept, maxDepth, spans, check.multiplier, depth)
        invariant check.multiplier < Pow2(depth)
        invariant spans == [] <==> old(spans) == [] && RejectedRightOf(accept, check.multiplier, depth)
        invariant old(MeetUnit(spans, maxDepth)) ==> MeetUnit(spans, maxDepth)
        decreases check.multiplier
      {
        var isGood := accept(check);
        if isGood {
          ghost var before := spans;
          ghost var at, span, inserted := Expand(accept, check);
          if MeetUnit(before, maxDepth) {
            FoundMeetsUnit(before, spans, at, span, inserted, check, maxDepth);
          }
          if exact {
            FindKeepsProgress(accept, maxDepth, before, spans, at, span, inserted, check);
          }
        } else if exact {
          SettledKeepsProgress(accept, maxDepth, spans, check);
        }
        var next := GetNextDyadic(accept, check);
        RejectedStep(accept, check, next.multiplier);
        if exact {
          MoveKeepsProgress(accept, maxDepth, spans, depth, check.multiplier, next.multiplier);
        }
        check := next;
      }
      RejectedDone(accept, depth, check.multiplier);
      if exact {
        DepthDone(accept, maxDepth, spans, check.multiplier, depth);
      }
    }

    method SearchAllDepths(accept: Predicate)
      modifies this
      ensures Consistent(accept) && MeetUnit(spans, maxDepth)
      ensures spans == [] <==> NoneAccepted(accept, maxDepth)
      ensures Searchable(accept, maxDepth) ==> Exact(accept, maxDepth, spans, maxDepth)
    {
      hide Exact, RejectedRightOf;
      seen, spans, finds := [], [], [];
      var depth := 1;
      ghost var done := 0;
      if Searchable(accept, maxDepth) {
        StartsExact(accept, maxDepth);
      }
      while depth <= maxDepth
        invariant 0 <= done <= maxDepth && depth == done + 1 && Consistent(accept) && MeetUnit(spans, maxDepth)
        invariant Searchable(accept, maxDepth) ==> Exact(accept, maxDepth, spans, done)
        invariant spans == [] <==> NoneAccepted(accept, done)
      {
        SearchDepth(accept, depth);
        done := depth;
        depth := depth + 1;
      }
    }

    /** Every recorded interval is a gap-free chain of accepted pieces, whatever the predicate, and
        nothing is found only if there is nothing to find. For a
        searchable predicate the recorded intervals are, in the unit interval, exactly its maximal
        runs, and every accepted interval there lies in one of them. */
    method FindInUnitInterval(accept: Predicate) returns (result: seq<(real, real)>)
      modifies this
      ensures Consistent(accept) && |result| == |spans|
      ensures forall i :: 0 <= i < |spans| ==> result[|spans| - 1 - i] == EndsOf(spans[i], maxDepth)
      ensures result == [] <==> NoneAccepted(accept, maxDepth)
      ensures Searchable(accept, maxDepth) ==>
                && Exact(accept, maxDepth, spans, maxDepth) && ExactRuns(accept, maxDepth, spans)
                && AllCovered(accept, maxDepth, spans) && WholeRuns(accept, maxDepth, spans)
      ensures Coherent(accept, maxDepth) ==>
                forall i :: 0 <= i < |spans| ==> LeavesThroughEdges(accept, maxDepth, spans[i])
    {
      hide Exact, ExactRuns, AllCovered, WholeRuns, Searchable, Coherent, LeavesThroughEdges, EndsOf, Chain,
        NoneAccepted;
      SearchAllDepths(accept);
      if Searchable(accept, maxDepth) {
        ExactMeansRuns(accept, maxDepth, spans);
      }
      result := ReadSeen(accept);
      if Coherent(accept, maxDepth) {
        forall i | 0 <= i < |spans|
          ensures LeavesThroughEdges(accept, maxDepth, spans[i])
        {
          LeavesOnlyThrough(accept, maxDepth, finds[i], spans[i]);
        }
      }
    }

    /** The entries in map order, then reversed: left to right. */
    method ReadSeen(accept: Predicate) returns (result: seq<(real, real)>)
      requires Consistent(accept)
      ensures |result| == |spans|
      ensures forall i :: 0 <= i < |spans| ==> result[|spans| - 1 - i] == EndsOf(spans[i], maxDepth)
    {
      result := [];
      var i := 0;
      while i < |seen|
        invariant 0 <= i <= |seen| && |result| == i
        invariant forall j :: 0 <= j < i ==> result[i - 1 - j] == EndsOf(spans[j], maxDepth)
      {
        hide EndsOf;
        SpansAreEnds(seen[i], maxDepth, spans[i]);
        result := [(seen[i].inf.Real(), seen[i].sup.Real())] + result;
        i := i + 1;
      }
    }

    /** The search over any interval: the whole of it if it is accepted, and otherwise what is found
        in the unit interval, scaled back. A degenerate interval is refused. Every result is put
        together from adjacent intervals on which the predicate holds, and there is one if there is
        any dyadic part on which it does. For a predicate that halves decide the results are, in
        [a, b), exactly the maximal runs of its 2^maxDepth equal parts. */
    method Search(holds: Holds, a: real, b: real) returns (result: Option<seq<(real, real)>>)
      modifies this
      ensures holds(a, b) ==> result == Some([(a, b)])
      ensures !holds(a, b) && !(a < b) ==> result == None
      ensures !holds(a, b) && a < b ==>
                && result.Some? && (forall r :: r in result.value ==> PutTogether(holds, r))
                && (result.value == [] <==> HoldsNowhere(holds, a, b, maxDepth))
                && (HalvesDecide(holds, a, b, maxDepth) ==>
                      && FoundRuns(holds, a, b, maxDepth, result.value)
                      && forall r :: r in result.value ==> LeavesThroughEnds(holds, a, b, maxDepth, r))
                && (Within(holds, a, b) ==> forall r :: r in result.value ==> a <= r.0 && r.1 <= b)
      ensures !holds(a, b) && a < b ==>
                Consistent(ScaledPredicate(holds, a, b - a)) && FoundAs(result.value, a, b, maxDepth, spans)
    {
      if holds(a, b) {
        return Some([(a, b)]);
      }
      if !(b > a) {
        return None;
      }
      hide Exact, ExactRuns, Matches, Searchable, Coherent, LeavesThroughEdges, Unscale, EndsOf, ScaledPredicate,
        HalvesDecide, AllCovered, WholeRuns, FoundRuns, LeavesThroughEnds, PutTogether, Within, Parts, CutTo,
        NoneAccepted, HoldsNowhere;
      var predicate_ := ScaledPredicate(holds, a, b - a);
      var found := FindInUnitInterval(predicate_);
      var unscaled := seq(|found|, i requires 0 <= i < |found| => Unscale(found[i], a, b - a));
      forall i | 0 <= i < |spans|
        ensures unscaled[|spans| - 1 - i] == Parts(a, b, maxDepth, spans[i])
      {
        UnscaledSpan(a, b, maxDepth, spans[i]);
      }
      FoundMeans(holds, a, b, unscaled);
      NowhereIsNone(holds, a, b, maxDepth);
      result := Some(unscaled);
    }

    /** What the search of the unit interval has found, in the caller's coordinates. */
    lemma FoundMeans(holds: Holds, a: real, b: real, found: seq<(real, real)>)
      requires a < b && !holds(a, b)
      requires var p := ScaledPredicate(holds, a, b - a);
               && Consistent(p) && FoundAs(found, a, b, maxDepth, spans)
               && (Searchable(p, maxDepth) ==> ExactRuns(p, maxDepth, spans))
               && (Coherent(p, maxDepth) ==>
                     forall i :: 0 <= i < |spans| ==> LeavesThroughEdges(p, maxDepth, spans[i]))
      ensures forall r :: r in found ==> PutTogether(holds, r)
      ensures HalvesDecide(holds, a, b, maxDepth) ==>
                && FoundRuns(holds, a, b, maxDepth, found)
                && forall r :: r in found ==> LeavesThroughEnds(holds, a, b, maxDepth, r)
      ensures Within(holds, a, b) ==> forall r :: r in found ==> a <= r.0 && r.1 <= b
    {
      hide ExactRuns, Matches, Coherent, LeavesThroughEdges, ScaledPredicate, HalvesDecide, FoundRuns,
        LeavesThroughEnds, PutTogether, Within, Parts, CutTo;
      var p := ScaledPredicate(holds, a, b - a);
      AllPutTogether(holds, a, b, maxDepth, seen, spans, finds, found);
      DecidedIsCoherent(holds, a, b, maxDepth);
      WholeIsRefused(holds, a, b);
      if HalvesDecide(holds, a, b, maxDepth) {
        FoundFromSpans(holds, a, b, maxDepth, spans, found);
        forall i | 0 <= i < |found|
          ensures LeavesThroughEnds(holds, a, b, maxDepth, found[i])
        {
          assert found[|spans| - 1 - (|spans| - 1 - i)] == Parts(a, b, maxDepth, spans[|spans| - 1 - i]);
          EdgesAreEnds(holds, a, b, maxDepth, spans[|spans| - 1 - i]);
        }
      }
      if Within(holds, a, b) {
        forall i | 0 <= i < |found|
          ensures a <= found[i].0 && found[i].1 <= b
        {
          PutTogetherInside(holds, a, b, found[i]);
        }
      }
    }
  }
}
