# RoughPy: dyadic streams and word algebra in Dafny

A model of the parts of RoughPy that work by exact dyadic arithmetic, with proofs of what they
promise, and of the smaller index and word algorithms around them. Each class or algorithm that
works by changing things is a class or a method with loops, proved against a specification;
what the source promises is then proved about the specification for all inputs.

The first part is about streams. A query over an interval is rounded to grains of size 2^-n, cut
into dyadic pieces, and answered from an index, a cache or a lazily grown tree; the answers of the
pieces are multiplied up.

- `Powers`, `Dyadics`, `DyadicIntervals`: dyadic numbers k/2^n, their normalisation and
  comparison, and the clopen intervals [k/2^n, (k+1)/2^n) with their order.
- `Dissection`: cutting [inf, sup) into dyadic pieces. The pieces are exactly the maximal ones, there
  is no shorter list, and there are at most two on each level.
- `SegmentRuns`, `SearchProgress`, `ScaledPredicates`, `Searcher`: the search for the maximal runs
  where a predicate holds, depth by depth and from right to left, with its map of what has been seen;
  first on the unit interval, and then in the coordinates of the caller. Nothing is assumed about
  what the predicate does outside the interval.
- `Monoids`, `Timeline`: log signatures are elements of any monoid under the
  Campbell-Baker-Hausdorff product, so that every result holds for the real product; values at
  increasing times, and Chen's identity for what lies between two times.
- `TickIndex`, `TickFill`, `TickTree`, `TickRoots`, `TickEnding`, `TickStream`: the compressed dyadic
  tree of a tick stream, the recursion that builds it, and when that recursion ends.
- `IncrementData`, `FinerQueries`, `QueryCost`, `CachingLayer`: the increment stream, the cache in front
  of it, what it answers at each resolution, and the multiplications a query takes.
- `DynamicTree`, `DynamicGrowth`, `DynamicValues`, `DynamicHooks`, `DynamicBalance`, `DynamicFrame`,
  `DynamicRuns`, `DynamicGrains`, `DynamicStream`, `FunctionStream`: the tree that grows while it is
  queried. For any hooks that make its values, an answer is the product of its pieces' nodes, each as
  accurate as was asked for, and a node whose leaves are equally fine is their product; for a function
  stream that is the product of the function over the grains. With hooks that split and grow exactly,
  the leaves are read as a timeline, and answers are compared with it; what is asked of the hooks is
  asked only of values that can be stored, and worked out for the halving stream and for function streams.

The second part is about words and points.

- `Words`, `IndexReversal`, `AntipodeKernel`: words as numbers, the reversal of an index, and the
  tiled kernel that applies the antipode to one level of a tensor.
- `TensorWords`: tensor keys as words in bijective numeration, their order, product and sizes.
- `TensorDicts`, `Coproduct`, `CoproductIntent`: sums of pairs of words and the unshuffle coproduct, as it
  is and as it is meant.
- `PartitionSets`, `Partitions`: partitions of an interval and their merge.
- `BracketTrees`, `BracketParsing`, `BracketText`: Lie brackets, their flat encoding by relative
  offsets, the two parsers and the printer.

Where the code does not do what its comments or its documentation suggest, the model follows the
code and says exactly when the intended property holds:

- The caching layer answers queries finer than its own resolution only in part
  (`DirectExactlyUpToResolution`, `LayerAnswerIsFiner`), but in full where all increments lie at starts
  of grains (`StartsAreTotals`).
- `TensorKey` products put the right word first, because both insertions in `operator*` go to the
  front: they concatenate exactly for powers of one word (`TimesConcatenatesExactly`). The
  coproduct of a word, built with that product, is that of the reversed word: it is right exactly
  for words that read the same both ways (`MeantExactlyForPalindromes`).
- `LieKey::equals` only follows the left side of each half (`EqualsComparesSpines`).
- The antipode kernel covers its level only with a single work-item in each group, because both tile
  loops start from the first local coordinate (`CoverageExactly`).
- Merging two partitions with a gap between them drops the interior points (`AcrossGapKeepsCuts`),
  and merging a single point with an interval that ends there keeps that end as a point
  (`MergeIsProper`). Inserting the lower end, or a point that is there, breaks a partition
  (`InsertIntermediate`).
- `mesh` is the least length of a piece, where the Python documentation speaks of the largest: the two
  agree exactly if all pieces have the same length (`MeshIsLargestExactly`).
- A query takes at most 2n - 1 multiplications on the tick stream, but through the caching layer, which
  only keeps grains, one less than there are filled grains in it (`LayerProductsAreGrains`,
  `UnitQueryOverBudget`).
- Rounding a dyadic number down by more than 30 places can leave an interval of another power
  (`ConstructedReaches`, `FarConstruction`).
- A clopen query that ends where the support begins is not reported as empty (`MissesTouching`).
- Growing the root of the lazily grown tree ends exactly for an interval on the root's side of zero
  (`GrowthEndsExactly`). Building a tick stream ends exactly if no grain is zero and there are no
  events before zero together with one at zero (`BuildingEnds`).
- In a lazily grown stream with a function for its values, stored values and with them repeated answers
  stay as they are exactly if the function is additive (`ValuesStayExactly`); with the function that
  is 1 everywhere an answer changes from 1 to 2 (`AnswerChanges`). Differences of a path's values are
  additive exactly if the product of adjacent increments is their sum (`IncrementsAdditiveExactly`).
- A search in which the grains on both sides of an end of the interval are good can give results that
  leave the interval, and only then (`LeavesOnlyThrough`).

## Model

| member | source | states |
|---|---|---|
| `Dyadics.DyadicObject.Rebase` | intervals/src/dyadic.cpp:71-98 | terminates, keeps the rational value, stops at the least power not below the (31-digit clamped) target at which the number can be written, and returns true exactly when the unclamped case reaches that target |
| `Dyadics.RationalEqualsDecides` | intervals/src/dyadic.cpp:148-171 | the ratio test decides equality of the two rational numbers, zero included |
| `Dyadics.ComparatorsAreRationalOrder` | intervals/src/dyadic_searcher.h:50-66 | the searcher's two comparators are the strict order of the rational numbers |
| `Dyadics.RepresentableMeansEqual` | intervals/src/dyadic.cpp:71-98 | a dyadic can be written at a power exactly when some integer multiple of that unit has the same rational value |
| `DyadicIntervals.DyadicIntervalObject.FromDyadic` | intervals/src/dyadic_interval.cpp:44-56 | normalise, cut off the non-negative remainder, normalise again: never fails, and within 30 places gives the grain of the resolution that holds the number; beyond that the interval that the clamp leaves |
| `DyadicIntervals.ConstructedReaches` | intervals/src/dyadic_interval.cpp:44-56 | the constructor reaches the resolution if and only if 30 places are enough, at once or after reducing the number |
| `DyadicIntervals.FarConstruction` | intervals/src/dyadic.cpp:82-84 | the number 1/2, given as 2^30 * 2^-31, at resolution 0 becomes [1/2, 1) and not [0, 1) |
| `DyadicIntervals.RoundedHolds` | intervals/src/dyadic_interval.cpp:44-56 | the constructed interval contains the number it was made from |
| `DyadicIntervals.FloorAtHolds` | intervals/src/dyadic_interval.cpp:57-68 | the interval made from a parameter contains the parameter |
| `DyadicIntervals.RebaseKeepsFloor` | intervals/src/dyadic_interval.cpp:44-56 | normalising a dyadic first does not change the interval it is rounded to |
| `DyadicIntervals.DyadicIntervalObject.ShrinkIntervalLeft` | intervals/src/dyadic_interval.cpp:116-127 | the n-fold loop of halvings leaves the first of the 2^n parts |
| `DyadicIntervals.DyadicIntervalObject.ShrinkIntervalRight` | intervals/src/dyadic_interval.cpp:107-115 | leaves the right half |
| `DyadicIntervals.DyadicIntervalObject.ExpandInterval` | intervals/src/dyadic_interval.cpp:128-132 | leaves the interval that many levels up, for up to 30 levels, and what the clamp leaves beyond |
| `DyadicIntervals.DyadicIntervalObject.FlipInterval` | intervals/src/dyadic_interval.cpp:155-163 | leaves the other interval with the same parent, for multipliers of either sign; flipping again leads back |
| `DyadicIntervals.HalvesAre` | intervals/src/dyadic_interval.cpp:98-106 | shrinking to the contained and to the omitted end gives the left and the right half |
| `DyadicIntervals.AlignedIsEven` | intervals/src/dyadic_interval.cpp:148-154 | rounding to the parent and back changes nothing exactly for even multipliers |
| `DyadicIntervals.ContainsIsInclusion` | intervals/src/dyadic_interval.cpp:133-147 | contains_dyadic is inclusion of half-open intervals of numbers |
| `DyadicIntervals.NestedOrDisjoint` | intervals/src/dyadic_interval.cpp:133-147 | two dyadic intervals are nested or disjoint |
| `DyadicIntervals.LessIsLexicographic` | intervals/src/dyadic_interval.cpp:227-248 | operator< is lexicographic by start and then by power |
| `DyadicIntervals.LessIsStrictTotal` | intervals/src/dyadic_interval.cpp:227-248 | irreflexive, transitive and total |
| `DyadicIntervals.LessIsPreorder` | intervals/src/dyadic_interval.cpp:227-248 | everything below an interval comes after it, and before whatever comes after it from outside |
| `Dissection.ToDyadicIntervals` | intervals/src/dyadic_interval.cpp:188-225 | the two climbing loops end for all inf <= sup of either sign and give the level-by-level cutting of the rounded range |
| `Dissection.PiecesAreMaximal` | intervals/src/dyadic_interval.cpp:195-225 | the pieces are exactly the maximal dyadic intervals of power at most tol in the rounded range, and lie end to end from one end of it to the other |
| `Dissection.TilesCoverOnce` | intervals/src/dyadic_interval.cpp:195-225 | every grain of the range is in exactly one piece |
| `Dissection.TilesLeftToRight` | intervals/src/dyadic_interval.cpp:195-225 | the pieces come from left to right |
| `Dissection.PiecesShortest` | intervals/src/dyadic_interval.cpp:195-225 | no list of dyadic intervals that covers the same grains from inside is shorter |
| `Dissection.PiecesFormValley` | intervals/src/dyadic_interval.cpp:195-225 | powers strictly fall and then strictly rise |
| `Dissection.PiecesLogarithmic` | intervals/src/dyadic_interval.cpp:195-225 | k pieces need at least 2^((k+1)/2 - 1) grains, so their number is logarithmic in that of the grains |
| `Dissection.PiecesPerUnitQuery` | README.md:50-51 | a query inside a unit interval has at most 2n pieces at resolution n; what that means for multiplications is stated by TickStream.LogSignature and QueryCost.LayerProductsAreGrains |
| `Dissection.PiecesAbut` | README.md:47 | the pieces of two adjacent ranges together tile the whole range |
| `SegmentRuns.GrainsDecide` | intervals/src/dyadic_searcher.cpp:41-122 | a coherent predicate accepts an interval exactly when every finest grain in it is good |
| `SegmentRuns.SpansAreRuns` | intervals/src/dyadic_searcher.cpp:212-247 | once the finest depth is done the recorded spans are, in the unit interval, exactly its maximal runs of good grains |
| `SegmentRuns.AcceptedIsCovered` | intervals/src/dyadic_searcher.cpp:212-247 | every accepted interval of the unit interval, of any depth, lies in a recorded span, whatever is accepted outside |
| `SegmentRuns.FreshFindIsBlocked` | intervals/src/dyadic_searcher.cpp:217-238 | next to a find that no span covers the search would have found anything bigger inside the unit interval before |
| `SegmentRuns.ConfinedRuns` | intervals/src/dyadic_searcher.cpp:212-247 | if nothing is accepted outside the unit interval nothing has to be cut off at its ends |
| `SegmentRuns.LeavesOnlyThrough` | intervals/src/dyadic_searcher.cpp:41-122 | a chain of accepted pieces around a grain of the unit interval leaves it only where the grains on both sides of an end are good |
| `SearchProgress.ExactMeansRuns` | intervals/src/dyadic_searcher.cpp:212-247 | the loop invariant at the last depth gives: in the unit interval exactly its maximal runs, in order, no two results touching, and every accepted interval covered; for a predicate that accepts nothing outside the results are the runs themselves |
| `Searcher.DyadicSearcher.ExpandLeft` | intervals/src/dyadic_searcher.cpp:41-81 | grows to the left by accepted pieces without a gap, and stops in front of a bad grain if the predicate is coherent |
| `Searcher.DyadicSearcher.ExpandRight` | intervals/src/dyadic_searcher.cpp:82-113 | the same to the right |
| `Searcher.DyadicSearcher.Expand` | intervals/src/dyadic_searcher.cpp:114-122 | a find is recorded as a gap-free chain of accepted pieces around it; it is a maximal run where the greedy expansion was not cut short |
| `Searcher.DyadicSearcher.GetNextDyadic` | intervals/src/dyadic_searcher.cpp:144-210 | the candidate moves strictly to the left to one that no recorded span covers, and all that is skipped is settled |
| `Searcher.DyadicSearcher.SearchDepth` | intervals/src/dyadic_searcher.cpp:217-238 | keeps, with no assumption about what lies outside the unit interval: after depth d every accepted interval in it of depth at most d lies in a recorded span that is maximal in it; and for any predicate nothing is found only if nothing at this depth is accepted |
| `Searcher.DyadicSearcher.FindInUnitInterval` | intervals/src/dyadic_searcher.cpp:212-247 | ends under any predicate with a chain of accepted pieces for each result, and without a result if and only if no interval from the halves to the grains is accepted; for a coherent one that does not accept the whole, the results are in the unit interval exactly its maximal runs, and one leaves it only where the grains on both sides of an end are good |
| `Searcher.DyadicSearcher.Search` | intervals/src/dyadic_searcher.cpp:248-264 | in the coordinates of the caller: the whole interval if it is accepted, a refusal if it is degenerate; otherwise every result is put together from adjacent intervals on which the predicate holds, there is one if and only if it holds on some dyadic part, results stay inside if it holds only there, and if halves decide it they are, in [a, b), exactly the maximal runs of its equal parts |
| `ScaledPredicates.EqualParts` | intervals/src/scaled_predicate.cpp:37-41 | the 2^m parts start at a, end at b and all have the length (b - a)/2^m |
| `ScaledPredicates.ScaledAsks` | intervals/src/scaled_predicate.cpp:42-45 | asked for a dyadic interval the scaled predicate asks the predicate of the caller about the same span of parts of [a, b) |
| `ScaledPredicates.UnscaledSpan` | intervals/src/scaled_predicate.cpp:37-41 | scaling back takes spans of grains of the unit interval to the same spans of parts of [a, b) |
| `ScaledPredicates.FoundFromSpans` | intervals/src/dyadic_searcher.cpp:248-264 | exact spans in the unit interval, scaled back, are exactly the maximal runs of parts of [a, b) |
| `ScaledPredicates.PartsDecideHalves` | intervals/src/dyadic_searcher.cpp:41-122 | a predicate about a set of parts is decided by halves |
| `ScaledPredicates.ChainCuts` | intervals/src/dyadic_searcher.cpp:41-122 | a chain of accepted pieces is a row of adjacent intervals of the caller on which the predicate holds |
| `Monoids.Cbh` | algebra/src/context.cpp:187-208 | the collected product over any list is the ordered product, the single-entry shortcut and the skipped zeros included, with one multiplication less than there are non-zero entries |
| `Timeline.Chen` | README.md:47 | totals between rounded ends over adjacent intervals multiply to the total over the whole |
| `Timeline.TotalOfTiles` | streams/src/stream_base.cpp:71-86 | the totals of pieces lying end to end multiply up to the total of the range |
| `Timeline.QueryFromPieces` | streams/src/stream_base.cpp:71-86 | dissecting and multiplying gives the product of all values between the rounded ends |
| `Timeline.BetweenIsSlice` | streams/src/lie_increment_stream.cpp:159-183 | what lies in [inf, sup) is the slice between the two lower bounds |
| `TickIndex.SmallestIsFinest` | streams/src/tick_stream.cpp:40-76 | no dyadic interval of power at most the resolution that holds the grains of all events in a query is finer than the one found |
| `TickIndex.SmallestHoldsEvents` | streams/src/tick_stream.cpp:40-76 | one is found exactly when there is an event, it holds all of them and lies in the query unless the query is finer than the resolution |
| `TickIndex.SmallestSplits` | streams/src/tick_stream.cpp:120-143 | each half of the found interval holds strictly fewer events: the recursion ends |
| `TickStream.TickStream.Fill` | streams/src/tick_stream.cpp:196-213 | files every tick under its grain; the grain times become an increasing list and the map holds exactly the grains |
| `TickFill.GrainHoldsItsTicks` | streams/src/tick_stream.cpp:196-213 | a grain holds the product of its ticks in arrival order, in whatever order the times come in |
| `TickFill.TotalIsTicks` | streams/src/tick_stream.cpp:187-218 | for ticks in time order every total over grains is the plain product of the ticks in the interval |
| `TickFill.QueryIsTicks` | streams/src/tick_stream.cpp:187-231 | for ticks in time order a query not finer than the stream is the plain product of the ticks whose own times lie between its rounded ends |
| `TickStream.TickStream.SmallestContaining` | streams/src/tick_stream.cpp:40-76 | lower bounds, then expansion of the first grain until it contains the last: the finest interval holding all events |
| `TickStream.TickStream.SmallestContainingNegative` | streams/src/tick_stream.cpp:77-95 | the root of the events before zero |
| `TickStream.TickStream.SmallestContainingPositive` | streams/src/tick_stream.cpp:96-119 | the root of the events from zero on |
| `TickStream.TickStream.RecursiveLogsig` | streams/src/tick_stream.cpp:120-143 | returns the ordered product of the grains in the interval, finishes every key below it, touches nothing outside, and is the bounded recursion Run at some depth |
| `TickTree.NodeFinished` | streams/src/tick_stream.cpp:120-143 | a node is finished once both halves are: its value is the product of its grains and every query inside finds its key |
| `TickStream.TickStream.constructor` | streams/src/tick_stream.cpp:187-218 | the finished index answers every query that meets an event with one look-up; the requirements are exactly the condition of BuildingEnds |
| `TickStream.TickStream.LogSignatureImpl` | streams/src/tick_stream.cpp:219-231 | for a dyadic interval of any power the answer is the ordered product of the grains that start in it |
| `TickStream.TickStream.LogSignature` | streams/src/stream_base.cpp:71-86 | at every resolution the answer is the ordered product of the grains between the rounded ends; inside a unit interval it takes at most 2n - 1 multiplications at resolution n (README.md:51) |
| `TickStream.TickStream.IsEmpty` | streams/src/tick_stream.cpp:232-243 | true exactly when no event lies in the query rounded at the stream resolution |
| `TickEnding.NegativeLoopEnds` | streams/src/tick_stream.cpp:83-91 | the loop from the first negative grain has no end if and only if there are events before zero and one at zero |
| `TickEnding.ExpandRunEnds` | streams/src/tick_stream.cpp:70-72 | the loop from one grain to another ends if and only if both are on one side of zero, and then at the finest interval above both |
| `TickEnding.BuildingEnds` | streams/src/tick_stream.cpp:187-218 | building the index has an end if and only if no grain is zero and the events do not straddle zero |
| `TickEnding.Stuck` | streams/src/tick_stream.cpp:120-143 | the recursion over any interval that holds a zero-valued grain goes deeper than every bound |
| `TickEnding.RunEnds` | streams/src/tick_stream.cpp:120-143 | with values in all grains one level more than there are events is deep enough |
| `TickEnding.RunTouchesInside` | streams/src/tick_stream.cpp:120-143 | a recursion that ends changes nothing outside its interval |
| `TickEnding.StuckAtGrain` | streams/src/tick_stream.cpp:120-143 | at a zero-valued grain the recursion comes back to the same grain to any depth |
| `CachingLayer.LieIncrementStream.constructor` | streams/src/lie_increment_stream.cpp:114-157 | reading rows: sorted, and of rows with the same time the first one wins |
| `IncrementData.StepsTelescope` | streams/src/lie_increment_stream.cpp:128-153 | with a parameter channel the steps put in add up to the time of the last row |
| `CachingLayer.LieIncrementStream.LogSignatureImpl` | streams/src/lie_increment_stream.cpp:159-184 | the ordered product of the increments in the interval |
| `CachingLayer.LieIncrementStream.IsEmpty` | streams/src/lie_increment_stream.cpp:185-197 | true exactly when no increment lies in the interval |
| `CachingLayer.LieIncrementStream.LogSignatureDyadic` | streams/src/dyadic_caching_layer.cpp:83-127 | the recursion ends, leaves every cache entry equal to a fresh computation, answers independently of the cache, and so does the number of its multiplications; what the answer is, FinerQueries and LayerAnswerIsTotal say from the increments |
| `CachingLayer.LieIncrementStream.LogSignature` | streams/src/dyadic_caching_layer.cpp:128-151 | the answer is the product of all increments between the rounded ends up to the layer resolution, and at any resolution if all increments lie at starts of grains; beyond that it is what the grains answer |
| `FinerQueries.StartsAreTotals` | streams/src/dyadic_caching_layer.cpp:104-112 | with all increments at multiples of 2^-res the layer gives the direct answer at every resolution |
| `FinerQueries.LayerAnswerIsFiner` | streams/src/dyadic_caching_layer.cpp:104-112 | at a finer resolution: the product of the grains that lie wholly in the query, times all of the grain at its right end if the first piece of that holds an increment; the part of a grain at the left end is lost |
| `FinerQueries.GrainsExist` | streams/src/dyadic_caching_layer.cpp:104-112 | every query has such a first and last grain |
| `FinerQueries.TailPieceIs` | intervals/src/dyadic_interval.cpp:195-225 | that first piece is the largest dyadic interval that starts with the grain and fits before the end |
| `CachingLayer.LieIncrementStream.RunQueries` | streams/src/dyadic_caching_layer.cpp:83-151 | after any sequence of queries at any resolutions each answer is that of a fresh stream, and what the increments alone determine |
| `QueryCost.LayerProductsAreGrains` | streams/src/dyadic_caching_layer.cpp:113-150 | if nothing cancels out a query through the layer takes one multiplication less than there are filled grains in it, so that it keeps to a budget if and only if there are few enough (README.md:51) |
| `QueryCost.JoinsCount` | streams/src/dyadic_caching_layer.cpp:113-127 | the recursion over one interval never takes more than that |
| `QueryCost.UnitQueryOverBudget` | streams/src/dyadic_caching_layer.cpp:113-150 | with an increment of 1 in every grain a query over the unit interval takes 2^n - 1 multiplications, more than 2n from n = 3 on |
| `IncrementData.LayerAnswerIsTotal` | streams/src/dyadic_caching_layer.cpp:128-151 | recursion over halves and pieces gives the direct answer at resolutions not finer than the layer |
| `IncrementData.FinerResolutionLoses` | streams/src/dyadic_caching_layer.cpp:88-112 | a concrete increment that a finer query loses |
| `IncrementData.DirectExactlyUpToResolution` | streams/src/dyadic_caching_layer.cpp:88-112 | the layer answers dyadic queries directly on all data if and only if they are not finer than its resolution |
| `DynamicTree.LeafTest` | streams/include/roughpy/streams/dynamically_constructed_stream.h:86-89 | the test accuracy == power finds exactly the leaves |
| `DynamicTree.RootIsFirst` | streams/src/dynamically_constructed_stream.cpp:202-204 | the root is first in map order |
| `DynamicTree.SuccessorIsLeft` | streams/src/dynamically_constructed_stream.cpp:302-314 | the successor of an inner node in map order is its left half, and nothing else is |
| `DynamicTree.PredecessorIsLeafAbove` | streams/src/dynamically_constructed_stream.cpp:76-84 | the predecessor of the place of a missing interval is the leaf above it |
| `DynamicValues.AccuracyIsLeastLeafPower` | streams/src/dynamically_constructed_stream.cpp:163-225 | the accuracy of a node is the least power of the leaves below it |
| `DynamicGrowth.WithChildrenLinked` | streams/src/dynamically_constructed_stream.cpp:226-262 | splitting a leaf keeps the full binary tree and its links |
| `DynamicGrowth.WithChildrenAccurate` | streams/src/dynamically_constructed_stream.cpp:226-262 | after a split only the accuracy of the split leaf can be behind |
| `DynamicGrowth.RaisedAccurate` | streams/src/dynamically_constructed_stream.cpp:192-225 | raising a parent to what its halves offer leaves only the next parent behind |
| `DynamicGrowth.WithRootLinked` | streams/src/dynamically_constructed_stream.cpp:102-141 | growing the root keeps the full binary tree and its links |
| `DynamicGrowth.WithRootAccurate` | streams/src/dynamically_constructed_stream.cpp:102-141 | growing the root keeps all accuracies exact |
| `DynamicGrowth.WithChildrenConserved` | streams/src/dynamically_constructed_stream.cpp:226-262 | with an exact split every inner node stays the product of its halves and no value changes |
| `DynamicGrowth.WithRootConserved` | streams/src/dynamically_constructed_stream.cpp:102-141 | so it does with an exact growth |
| `DynamicGrowth.GrowthEndsExactly` | streams/src/dynamically_constructed_stream.cpp:102-106 | growing the root reaches an interval if and only if both are on the same side of zero |
| `DynamicGrowth.EvensMakeAccurate` | streams/src/dynamically_constructed_stream.cpp:70-91 | with a node at every second place of the wanted power a node is accurate to that power |
| `DynamicStream.DynamicStream.constructor` | streams/include/roughpy/streams/dynamically_constructed_stream.h:92-130 | starts empty |
| `DynamicStream.DynamicStream.UpdateParents` | streams/src/dynamically_constructed_stream.cpp:192-225 | walking up until nothing improves restores all accuracies, keeps shape and links, sets a parent that is behind to the product of its halves, and with conserved values changes no value |
| `DynamicStream.DynamicStream.InsertChildrenAndRefine` | streams/src/dynamically_constructed_stream.cpp:226-262 | splits a leaf, keeps the invariant, and returns the half, a leaf, that holds the interval; the split value becomes the product of the two parts, and with exact splits no value changes |
| `DynamicStream.DynamicStream.ExpandRootUntilContains` | streams/src/dynamically_constructed_stream.cpp:102-141 | ends with a root that contains the interval, old nodes kept |
| `DynamicStream.DynamicStream.RefineAccuracy` | streams/src/dynamically_constructed_stream.cpp:40-91 | ends with the node accurate to what was asked for, nothing finer than that made, and nothing apart from the node changed |
| `DynamicStream.DynamicStream.LogSignatureDyadic` | streams/src/dynamically_constructed_stream.cpp:264-334 | every query keeps the invariant, extends the run that the tree is the end of, and returns the value of its own node with at least the wanted accuracy; nodes apart from the interval stay as they are, and the tree gets no finer than was asked; with exact hooks no stored value ever changes, and below the root exact splits alone are enough |
| `DynamicStream.DynamicStream.LogSignature` | streams/src/dynamically_constructed_stream.cpp:335-353 | for any hooks the answer is the product of the nodes of the pieces, as they are at the end, each accurate to the resolution, and the tree gets no finer than that; with exact hooks no value changes |
| `DynamicFrame.PieceAsked` | streams/src/dynamically_constructed_stream.cpp:348-350 | asking for one more piece changes nothing that was answered for the others |
| `DynamicGrains.RunAsks` | streams/src/dynamically_constructed_stream.cpp:102-262 | over every run of a function stream each leaf has the value that the function gives for it |
| `DynamicGrains.NodeIsGrains` | streams/src/dynamically_constructed_stream.cpp:192-262 | for any function: a node whose leaves all have power n is the product of the function over its grains of that power |
| `DynamicGrains.TilesAreGrains` | streams/src/dynamically_constructed_stream.cpp:335-355 | so is the product of the nodes of a query on a tree that is nowhere finer |
| `FunctionStream.LogSignatureByGrains` | roughpy/src/streams/function_stream.cpp:54-87 | for any function, additive or not: on a tree nowhere finer than the query the answer is the product of the function over the grains of the query, unless a root grown just above the grains lies in it |
| `FunctionStream.FreshAnswer` | roughpy/src/streams/function_stream.cpp:54-87 | the first query on a function stream is the product of the function over all grains between the rounded ends |
| `FunctionStream.RunQueriesAt` | roughpy/src/streams/function_stream.cpp:54-87 | so is every query of a history at one resolution, if the first interval asked for is longer than a grain |
| `DynamicStream.DynamicStream.IsEmpty` | streams/src/stream_base.cpp:44-52 | reports empty exactly if no number from inf to sup, both included, is in the support |
| `DynamicStream.DynamicStream.MissesTouching` | streams/src/stream_base.cpp:44-52 | a clopen query that misses the support is reported as not empty if and only if it ends where the support begins |
| `DynamicHooks.ScalarHalvingIsExact` | streams/src/dynamically_constructed_stream.cpp:367-376 | where multiples of one value multiply as their factors add, halving by the scalar 1/2 splits every value exactly |
| `DynamicRuns.ValuesStayExactly` | roughpy/src/streams/function_stream.cpp:54-87 | over all runs of a function stream (splits, raises and growths in any order) no stored value ever changes, if and only if the function is additive |
| `DynamicRuns.StepIsSound` | streams/src/dynamically_constructed_stream.cpp:102-262 | with an additive function every step of a run keeps the links, the products and the function's values |
| `FunctionStream.AskAround` | roughpy/src/streams/function_stream.cpp:75-87 | d, its left half, d again: the two answers on d, and that they agree if and only if the function is additive at d |
| `FunctionStream.AnswerChanges` | roughpy/src/streams/function_stream.cpp:75-87 | the function that is 1 everywhere answers 1 and then 2 |
| `FunctionStream.RunQueries` | roughpy/src/streams/function_stream.cpp:54-87 | after any history of dyadic queries at any resolutions an additive function gives its own value |
| `FunctionStream.IncrementsAdditiveExactly` | roughpy/src/streams/function_stream.cpp:69-72 | differences of a path are additive if and only if the increments of adjacent halves have their sum as their product |
| `DynamicBalance.SplitBalanced` | streams/src/dynamically_constructed_stream.cpp:226-262 | for any hooks: after a split only the split node can fail to be the product of equally accurate halves |
| `DynamicBalance.RaiseBalanced` | streams/src/dynamically_constructed_stream.cpp:204-224 | for any hooks: raising a node makes it the product of its halves, and leaves only its parent behind |
| `DynamicBalance.UniformIsProduct` | streams/src/dynamically_constructed_stream.cpp:192-262 | for any hooks: where all leaves below a node have one power, and no root was made by growing just above them, the node is their ordered product |
| `DynamicHooks.AnswerIsFunction` | roughpy/src/streams/function_stream.cpp:54-87 | the nodes of a function stream answer with the product of the function over the pieces |
| `FunctionStream.Make` | roughpy/src/streams/function_stream.cpp:41-87 | a stream whose hooks all ask the function |
| `FunctionStream.LogSignature` | roughpy/src/streams/function_stream.cpp:54-87 | any query is the product of the function over its pieces, whatever was asked before |
| `DynamicValues.NodeIsTotal` | streams/src/dynamically_constructed_stream.cpp:192-262 | with conserved values every node is the ordered product of the leaves in it |
| `DynamicValues.AnswerIsTotal` | streams/src/dynamically_constructed_stream.cpp:335-355 | an answer is the ordered product of what the leaves hold between the rounded ends |
| `DynamicValues.AnswersStay` | streams/src/dynamically_constructed_stream.cpp:264-355 | refinement and growth change no answer that was given |
| `DynamicValues.AnswersMultiply` | README.md:47 | answers over adjacent intervals, given at any time before, multiply to the answer over the whole |
| `IndexReversal.SplitIndex` | roughpy/ocl_kernels/tensor_index_functions.h:11-17 | quotient and remainder |
| `IndexReversal.ReverseIndexLoop` | roughpy/ocl_kernels/tensor_index_functions.h:20-29 | computes the index of the reversed word |
| `IndexReversal.ReverseIsInvolution` | roughpy/ocl_kernels/tensor_index_functions.h:20-29 | on the indices of a degree it stays inside and is its own inverse |
| `IndexReversal.ReverseReversesWords` | roughpy/ocl_kernels/tensor_index_functions.h:20-29 | takes the index of a word to that of the reversed word |
| `IndexReversal.AddressReverses` | roughpy/ocl_kernels/tensor_antipode.c:49-60 | the tiled address of (ix, mid, iy) reverses to that of (rev iy, rev mid, rev ix) |
| `IndexReversal.PlaceOf` | roughpy/ocl_kernels/tensor_antipode.c:49-60 | every index of the level is the address of a place in the tiles |
| `IndexReversal.AddressInjective` | roughpy/ocl_kernels/tensor_antipode.c:49-60 | and of one only |
| `AntipodeKernel.WorkItem` | roughpy/ocl_kernels/tensor_antipode.c:38-64 | a work-item writes exactly the cells of its own strides, each with the signed reversed source |
| `AntipodeKernel.Launch` | roughpy/ocl_kernels/tensor_antipode.c:38-64 | work-items in any order: a launch that visits every place leaves the antipode of the source |
| `AntipodeKernel.CoverageExactly` | roughpy/ocl_kernels/tensor_antipode.c:44-56 | a complete launch visits every place if and only if the tile has one cell or a group is a single work-item |
| `AntipodeKernel.AntipodeTwice` | roughpy/ocl_kernels/tensor_antipode.c:38-64 | two sweeps restore the input |
| `AntipodeKernel.AntipodeOfWord` | roughpy/ocl_kernels/tensor_antipode.c:32-64 | the coefficient of a word of length n is (-1)^n times that of the reversed word, or without signs just that |
| `AntipodeKernel.AntipodeOfLetters` | roughpy/ocl_kernels/tensor_antipode.c:32-64 | the empty word stays, and with signs letters go to their negatives |
| `AntipodeKernel.ProductOfWords` | roughpy/ocl_kernels/tensor_antipode.c:58-59 | the product of two levels: the coefficient of a word is that of its first letters times that of the others |
| `AntipodeKernel.AntipodeOfProduct` | roughpy/ocl_kernels/tensor_antipode.c:32-64 | the antipode of a product of two levels is the product of their antipodes in the opposite order |
| `AntipodeKernel.LaunchLevel01` | roughpy/ocl_kernels/tensor_antipode.c:75-84 | one work-item for each entry of the first two levels, in any order |
| `AntipodeKernel.FirstLevelsAreAntipode` | roughpy/ocl_kernels/tensor_antipode.c:75-84 | what they leave is the antipode of the empty word and of the letters |
| `TensorWords.KeyOfLetters` | roughpy/src/algebra/tensor_key.cpp:45-53 | the loop over the letters is Horner evaluation |
| `TensorWords.ToLetters` | roughpy/src/algebra/tensor_key.cpp:109-123 | the loop takes the letters off the key |
| `TensorWords.KeysAreWords` | roughpy/src/algebra/tensor_key.cpp:45-53 | words over 1..w and all natural keys are in bijection, each conversion inverting the other |
| `TensorWords.LettersAreWord` | roughpy/src/algebra/tensor_key.cpp:109-123 | the letters of any key are between 1 and w |
| `TensorWords.LessIsShortlex` | roughpy/src/algebra/tensor_key.cpp:129-132 | key order is shortlex on words |
| `TensorWords.TensorSizes` | algebra/src/context.cpp:102-111 | the table for depth at least 1 holds the number of words of length at most d |
| `TensorWords.SizeCountsWords` | algebra/src/context.cpp:135-139 | key(u) < tensor_size(d) if and only if u has at most d letters |
| `TensorWords.SizeClosedForm` | roughpy/src/algebra/tensor_key.cpp:150-155 | the closed form used as the bound on an index is that size, for w >= 2 |
| `TensorWords.ChildIsConcatenation` | algebra/src/libalgebra_lite_internal/tensor_basis_info.h:168-187 | child of two words is the key of the concatenation, or none if that is longer than the depth |
| `TensorWords.Multiplied` | roughpy/src/algebra/tensor_key.cpp:202-218 | both insertions go to the front: the right word comes first |
| `TensorWords.TimesIsMonoid` | roughpy/src/algebra/tensor_key.cpp:202-218 | operator* is associative with the empty word as unit |
| `TensorWords.TimesOfWords` | roughpy/src/algebra/tensor_key.cpp:202-218 | the product of the keys of u and v is the key of v followed by u |
| `TensorWords.TimesConcatenatesExactly` | roughpy/src/algebra/tensor_key.cpp:202-218 | it is the key of u followed by v if and only if u and v are powers of one word |
| `TensorWords.OneTimesTwo` | roughpy/src/algebra/tensor_key.cpp:202-218 | the product of the letters 1 and 2 is the word 2 1 |
| `TensorWords.TimesShifts` | roughpy/src/algebra/tensor_key.cpp:202-218 | lhs*rhs is rhs moved up by the length of lhs, plus lhs |
| `TensorWords.ReversedKey` | roughpy/src/algebra/tensor_key.cpp:133-138 | letters, reversed, back to a key |
| `TensorWords.LettersOfReverse` | roughpy/src/algebra/tensor_key.cpp:133-138 | the letters of a reversed key are its letters from the last to the first |
| `TensorWords.ReverseIsAntiAutomorphism` | roughpy/src/algebra/tensor_key.cpp:133-138 | reverse is an involution and turns products round |
| `Coproduct.Concatenated` | roughpy/tensor_functions.py:162-169 | the two loops and the filter come to the product of the dictionaries |
| `TensorDicts.ConcatProductLin` | roughpy/tensor_functions.py:162-169 | the product stands for the bilinear product of what its factors stand for |
| `TensorDicts.ConcatProductCanonical` | roughpy/tensor_functions.py:162-169 | no repeated key and no zero coefficient in a product |
| `TensorDicts.ConcatProductAssociates` | roughpy/tensor_functions.py:162-169 | the product is associative on what the dictionaries stand for |
| `TensorDicts.EntriesAreCoefficients` | roughpy/tensor_functions.py:75-78 | without repeated keys and zeros, the entries are exactly the non-zero coefficients |
| `Coproduct.TensorTensorProduct.ScaledBy` | roughpy/tensor_functions.py:100-108 | multiplies every coefficient, nothing stored for zero |
| `Coproduct.TensorTensorProduct.Plus` | roughpy/tensor_functions.py:110-125 | adds coefficients and stores no zero |
| `Coproduct.TensorTensorProduct.AddScalProd` | roughpy/tensor_functions.py:127-139 | adds a multiple in place and stores no zero |
| `Coproduct.AdjointOfWord` | roughpy/tensor_functions.py:172-184 | the reduction over the letters |
| `Coproduct.AdjointSums` | roughpy/tensor_functions.py:172-184 | the coproduct of a word is the sum over all choices of positions |
| `Coproduct.AdjointCounts` | roughpy/tensor_functions.py:172-184 | an entry is a pair that some choice of positions gives, with the number of choices that do |
| `Coproduct.AdjointTotal` | roughpy/tensor_functions.py:172-184 | the coefficients add up to 2^n |
| `Coproduct.MasksComplete` | roughpy/tensor_functions.py:172-184 | every choice of positions is counted once |
| `Coproduct.ChosenIsReversed` | roughpy/tensor_functions.py:172-184 | as keys multiply, the chosen letters come out in reverse order |
| `CoproductIntent.ChoicesOfTurned` | roughpy/tensor_functions.py:172-184 | the code computes the coproduct of the word turned round |
| `CoproductIntent.MeantExactlyForPalindromes` | roughpy/tensor_functions.py:172-184 | it is the coproduct with the letters in the order of the word if and only if the word reads the same both ways |
| `CoproductIntent.MissingFromOneTwo` | roughpy/tensor_functions.py:172-184 | from the coproduct of 1 2 the pair of 1 2 and the empty word is missing |
| `Partitions.Partition.Merge` | intervals/src/partition.cpp:135-254 | the seven loops give the common refinement of intervals that meet, each point as often as in the list that has it more often; across a gap only the facing ends are kept |
| `PartitionSets.LooseMergePoints` | intervals/src/partition.cpp:164-254 | what is in a merge, and that points repeat in it if and only if they did before |
| `PartitionSets.LooseMergeUnique` | intervals/src/partition.cpp:164-254 | the merge is determined, repeated points included, and does not depend on the order |
| `PartitionSets.LooseMergeOfProper` | intervals/src/partition.cpp:164-254 | for points that are inside and do not repeat this is: all points and all ends of both, but not the outer ends |
| `PartitionSets.MergeUnique` | intervals/src/partition.cpp:135-254 | the description of the merge determines its list of points |
| `PartitionSets.MergeCommutes` | intervals/src/partition.cpp:135-254 | merging does not depend on the order |
| `PartitionSets.MergeAssociates` | intervals/src/partition.cpp:135-254 | merging is associative where everything that is merged meets |
| `PartitionSets.MergeIsProper` | intervals/src/partition.cpp:186-195 | the result is strictly increasing and inside, except exactly when one interval is a point on top of the other |
| `Partitions.AcrossGapKeepsCuts` | intervals/src/partition.cpp:147-162 | across a gap nothing is lost if and only if neither partition had points |
| `Partitions.Partition.constructor` | intervals/src/partition.cpp:46-56 | keeps all points strictly inside and no others, in order, each as often as given |
| `Partitions.Partition.InsertIntermediate` | intervals/src/partition.cpp:120-133 | refuses points outside; stays proper exactly if the point is new and not the lower end |
| `Partitions.Partition.RefineMidpoints` | intervals/src/partition.cpp:57-73 | old points and midpoints alternate |
| `Partitions.RefinementHalvesMesh` | intervals/src/partition.cpp:57-91 | refining keeps a partition proper and halves its mesh |
| `Partitions.Partition.Mesh` | intervals/src/partition.cpp:75-91 | the least length of a piece, for points in any order |
| `Partitions.MeshIsLargestExactly` | roughpy/src/intervals/partition.cpp:81 | it is the largest, as documented, if and only if all pieces have the same length |
| `Partitions.MeshOfTwoPieces` | roughpy/src/intervals/partition.cpp:81 | [0, 3) cut at 1 has mesh 1 and a piece of length 2 |
| `Partitions.Partition.At` | intervals/src/partition.cpp:93-118 | the piece between neighbouring ends, refused beyond the last |
| `Partitions.PiecesCoverOnce` | intervals/src/partition.cpp:93-118 | every number of the interval is in exactly one piece |
| `BracketParsing.ParseKey` | roughpy/src/algebra/lie_key.cpp:192-245 | gives the flat encoding of the tree of the key |
| `BracketParsing.Parse` | roughpy/src/algebra/lie_key.cpp:309-379 | gives the flat encoding of the tree of the lists, or the error of the leftmost bad part |
| `BracketParsing.ParsersAgree` | roughpy/src/algebra/lie_key.cpp:192-366 | a key and nested lists give the same array exactly when they are the same bracket |
| `BracketParsing.MeaningInvertsListOf` | roughpy/src/algebra/lie_key.cpp:309-334 | each bracket is what exactly one object stands for |
| `BracketTrees.DecodeEncode` | roughpy/src/algebra/lie_key.cpp:336-366 | following the relative offsets restores the tree |
| `BracketTrees.EncodeOfNested` | roughpy/src/algebra/lie_key.cpp:192-245 | the arrays of [[1,2],3] and of [3,[1,2]], entry by entry |
| `BracketTrees.EncodeInjective` | roughpy/src/algebra/lie_key.cpp:336-366 | different brackets have different arrays |
| `BracketTrees.EncodedLength` | roughpy/src/algebra/lie_key.cpp:336-366 | length 2(degree - 1), or 1 for a letter |
| `BracketTrees.Degree` | roughpy/src/algebra/lie_key.cpp:278-284 | counting the letters gives the degree of the bracket |
| `BracketTrees.EqualsComparesSpines` | roughpy/src/algebra/lie_key.cpp:285-290 | equals holds on two brackets if and only if both halves agree down their left sides; a single letter is read past its end if and only if the first entries agree |
| `BracketTrees.EqualsMissesDifference` | roughpy/src/algebra/lie_key.cpp:285-290 | [1,[2,3]] and [1,[2,4]] compare equal |
| `BracketText.ToString` | roughpy/src/algebra/lie_key.cpp:260-269 | the walker prints the bracket text of the tree |
| `BracketText.DecimalReadsBack` | roughpy/src/algebra/lie_key.cpp:91-99 | a printed number reads back as itself, with no zeros in front |
| `BracketText.TextOfTwoPairs` | tests/algebra/test_lie_keys.py:19-22 | the text of [[1,2],[1,3]], letter by letter |
| `BracketText.TextInjective` | roughpy/src/algebra/lie_key.cpp:84-115 | the printed text determines the bracket |

## Left out

- Fixed-width integers and floating point: integers and reals are unbounded and exact, except for the
  31-digit clamp in `rebase`, which is modelled. Rounding of `ldexp`, overflow of shifts and NaN are not modelled.
- Opencl intervals: the source supports clopen ones only from Python, and `expand_interval` drops
  the type.
- `Dyadic::operator<`, `<=`, `>` and `>=`: they scale the operand that does not need it, so no
  rational order is claimed for them.
- The header helpers (`unit`, `shift`, `mod`, `int_two_to_int_power`) are not part of this model's
  sources; they are taken as 1, k*2^n, the non-negative remainder and 2^n.
- The Campbell-Baker-Hausdorff product, exponential and logarithm themselves, and the Hall basis:
  log signatures are an abstract monoid with a unit. Truncation and vector types are not modelled,
  nor is the change of context beyond the depth test of the caching layer.
- Signatures, serialisation, cache files, locks, devices, buffers and Python bindings.
- Dyadic intervals are values; `DyadicObject` and `DyadicIntervalObject` give the methods that
  change one in place. Deques, vectors and linked lists that are local to an operation are sequences
  that the method returns; the map of seen intervals and the nodes of the tree are fields.
- Iterators into the lazily grown tree are the keys they point at; parent and sibling links are keys
  too, and `end()` is `None`.
- DynamicStream.DynamicStream.RefineAccuracy: the source reads the lower bound without asking whether it is the end; the model asks.
- DynamicStream.DynamicStream.LogSignature: among the queries that meet the support and are not empty when rounded, only for those on the root's side of zero, because growing the root across zero has no end.
- DynamicStream.DynamicStream.ExpandRootUntilContains: the call that updates the old root's parent is left out, because that link is still unset there and the call does nothing.
- TickStream.TickStream.constructor: only for ticks for which building ends, which is the exact condition of TickEnding.BuildingEnds.
- QueryCost.LayerProductsAreGrains: multiplying the first value onto the unit and the products inside a grain when the cache is filled are not counted.
- CachingLayer.LieIncrementStream.LogSignature: the cache is not keyed by the context in the source, so one context of the stream's own depth is assumed for the cached answers.
- CachingLayer.LieIncrementStream.constructor: rows are taken as already read from the buffer, with the step of the parameter channel as a function.
- Searcher.DyadicSearcher.FindInUnitInterval: exactness is for predicates that hold on an interval exactly when they hold on both halves of it; for others it is proved that the results are chains of accepted pieces and that something is found if there is anything to find.
- TensorWords.TensorSizes: depth at least 1, because the source writes the second entry unconditionally.
- TensorWords.ChildIsConcatenation: a key of the basis is taken to be its degree and its place among the words of that degree, as `child` itself uses it; the basis class is not part of this model.
- AntipodeKernel.Launch: source and destination are different buffers; a work-item is run to its end before the next one. As each cell is written from the source only, the order does not matter.
- Coproduct.TensorTensorProduct.AddScalProd: the other sum's entries are read before the first change; when a sum is added to itself the source reads each entry just before changing it, with the same result.
- Partitions.Partition.Merge: for points out of order or outside their interval, which only the constructor from a finished vector can bring in, nothing is said beyond the ends.
- `split_n`, `lparent` and `rparent` of tensor and Lie keys, conversion of a Lie key to a number, and the
  constructors of a Lie key from two keys: the offsets they write do not match the parsers' encoding.
- Random increments: a Brownian stream's hooks are any hooks, with what `DynamicStream.LogSignature` and `DynamicBalance` prove of them.
- Hall set sizes and the Lie size table, strided copies, piecewise abelian streams and scalar storage.
- `add_scal_div` and `sub_scal_div`: as `add_scal_prod`, but they keep zero coefficients.
