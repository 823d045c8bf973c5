/** The tiled antipode kernel: one level of a tensor, reversed word by word and given its sign by
    many work-items. */
module AntipodeKernel {
  import opened Words
  import opened IndexReversal

  /** One level of the tensor: its words have `degree` letters, of which the first and the last
      `tile` make up the tiles. */
  datatype Level = Level(width: nat, degree: nat, tile: nat, signs: bool) {
    ghost predicate Valid() {
      width > 0 && 2 * tile <= degree
    }

    function MidDegree(): nat
      requires 2 * tile <= degree
    {
      degree - 2 * tile
    }

    function Size(): nat {
      Power(width, degree)
    }

    function Signed(x: real): real {
      if signs && degree % 2 == 1 then -x else x
    }

    function Source(x: nat, m: nat, y: nat): nat
      requires 2 * tile <= degree
    {
      Address(width, MidDegree(), tile, x, m, y)
    }

    function Target(x: nat, m: nat, y: nat): nat
      requires width > 0 && 2 * tile <= degree
    {
      Address(width, MidDegree(), tile, ReverseIndex(tile, width, y), ReverseIndex(MidDegree(), width, m),
              ReverseIndex(tile, width, x))
    }

    ghost predicate Holds(x: nat, m: nat, y: nat)
      requires 2 * tile <= degree
    {
      InTiles(width, MidDegree(), tile, x, m, y)
    }
  }

  type Place = (nat, nat, nat)

  /** The level as the antipode leaves it. */
  function Antipode(level: Level, src: seq<real>): (dst: seq<real>)
    requires level.Valid() && |src| == level.Size()
    ensures |dst| == |src|
  {
    seq(|src|, i requires 0 <= i < |src| =>
      ReverseIsInvolution(level.degree, level.width, i);
      level.Signed(src[ReverseIndex(level.degree, level.width, i)]))
  }

  /** Twice over it does nothing. */
  lemma AntipodeTwice(level: Level, src: seq<real>)
    requires level.Valid() && |src| == level.Size()
    ensures Antipode(level, Antipode(level, src)) == src
  {
    var twice := Antipode(level, Antipode(level, src));
    forall i | 0 <= i < |src|
      ensures twice[i] == src[i]
    {
      ReverseIsInvolution(level.degree, level.width, i);
    }
  }

  /** (-1)^n */
  function MinusOneTo(n: nat): real {
    if n == 0 then 1.0 else -MinusOneTo(n - 1)
  }

  lemma {:induction false} SignedIsPower(level: Level, x: real)
    ensures level.Signed(x) == if level.signs then MinusOneTo(level.degree) * x else x
  {
    MinusOneIs(level.degree);
  }

  lemma {:induction false} MinusOneIs(n: nat)
    ensures MinusOneTo(n) == if n % 2 == 1 then -1.0 else 1.0
  {
    if n > 0 {
      MinusOneIs(n - 1);
    }
  }

  /** With signs the coefficient of a word of length n is (-1)^n times that of the reversed word. */
  lemma AntipodeOfWord(level: Level, src: seq<real>, word: seq<nat>)
    requires level.Valid() && |src| == level.Size()
    requires |word| == level.degree && AllDigits(level.width, word)
    ensures Horner(level.width, word) < |src| && Horner(level.width, Reversed(word)) < |src|
    ensures Antipode(level, src)[Horner(level.width, word)]
         == if level.signs then MinusOneTo(|word|) * src[Horner(level.width, Reversed(word))]
            else src[Horner(level.width, Reversed(word))]
  {
    hide Horner, Reversed, ReverseIndex, Power, MinusOneTo;
    HornerBelow(level.width, word);
    ReversedDigits(level.width, word);
    HornerBelow(level.width, Reversed(word));
    ReverseReversesWords(level.width, word);
    SignedIsPower(level, src[Horner(level.width, Reversed(word))]);
  }

  // ----- the law of the antipode -----

  /** The product of two levels: the coefficient of a word is that of its first letters times that of
      the others. */
  function LevelProduct(a: seq<real>, b: seq<real>): (c: seq<real>)
    requires |b| > 0
    ensures |c| == |a| * |b|
  {
    seq(|a| * |b|, i requires 0 <= i < |a| * |b| =>
      QuotientBelow(i, |b|, |a|);
      Times(a[i / |b|], b[i % |b|]))
  }

  function Times(x: real, y: real): real {
    x * y
  }

  lemma ProductOfWords(width: nat, a: seq<real>, b: seq<real>, u: seq<nat>, v: seq<nat>)
    requires width > 0 && AllDigits(width, u) && AllDigits(width, v)
    requires |a| == Power(width, |u|) && |b| == Power(width, |v|)
    ensures |b| > 0 && Horner(width, u) < |a| && Horner(width, v) < |b|
    ensures |LevelProduct(a, b)| == Power(width, |u + v|) && Horner(width, u + v) < |LevelProduct(a, b)|
    ensures LevelProduct(a, b)[Horner(width, u + v)] == Times(a[Horner(width, u)], b[Horner(width, v)])
  {
    hide Horner, Power, Times;
    PowerPositive(width, |v|);
    HornerBelow(width, u);
    HornerBelow(width, v);
    HornerBelow(width, u + v);
    HornerConcat(width, u, v);
    QuotientOf(Horner(width, u), |b|, Horner(width, v));
    PowerAdd(width, |u|, |v|);
  }

  lemma {:induction false} PowerAdd(w: nat, a: nat, b: nat)
    ensures Power(w, a + b) == Power(w, a) * Power(w, b)
    decreases b
  {
    if b > 0 {
      PowerAdd(w, a, b - 1);
      Associate(Power(w, a), Power(w, b - 1), w);
    }
  }

  /** Three levels of one tensor, the third for the products of the other two. */
  ghost predicate Compose(first: Level, second: Level, whole: Level) {
    && first.Valid() && second.Valid() && whole.Valid()
    && first.width == second.width == whole.width && first.signs == second.signs == whole.signs
    && whole.degree == first.degree + second.degree
  }

  /** The antipode of a product is the product of the antipodes in the opposite order. */
  lemma AntipodeOfProduct(first: Level, second: Level, whole: Level, a: seq<real>, b: seq<real>)
    requires Compose(first, second, whole) && |a| == first.Size() && |b| == second.Size()
    ensures |a| > 0 && |b| > 0 && |LevelProduct(a, b)| == whole.Size()
    ensures Antipode(whole, LevelProduct(a, b)) == LevelProduct(Antipode(second, b), Antipode(first, a))
  {
    var w := whole.width;
    PowerPositive(w, first.degree);
    PowerPositive(w, second.degree);
    PowerAdd(w, first.degree, second.degree);
    forall i: nat | i < whole.Size()
      ensures Antipode(whole, LevelProduct(a, b))[i] == LevelProduct(Antipode(second, b), Antipode(first, a))[i]
    {
      var s := Digits(w, whole.degree, i);
      DigitsAreDigits(w, whole.degree, i);
      HornerOfDigits(w, whole.degree, i);
      assert s == s[..second.degree] + s[second.degree..];
      AntipodeOfProductAt(first, second, whole, a, b, s[..second.degree], s[second.degree..]);
    }
  }

  lemma AntipodeOfProductAt(first: Level, second: Level, whole: Level, a: seq<real>, b: seq<real>, u: seq<nat>,
                            v: seq<nat>)
    requires Compose(first, second, whole) && |a| == first.Size() && |b| == second.Size()
    requires |a| > 0 && |b| > 0 && |LevelProduct(a, b)| == whole.Size()
    requires AllDigits(whole.width, u) && AllDigits(whole.width, v) && |u| == second.degree && |v| == first.degree
    ensures Horner(whole.width, u + v) < whole.Size()
    ensures |LevelProduct(Antipode(second, b), Antipode(first, a))| == whole.Size()
    ensures Antipode(whole, LevelProduct(a, b))[Horner(whole.width, u + v)]
         == LevelProduct(Antipode(second, b), Antipode(first, a))[Horner(whole.width, u + v)]
  {
    hide Antipode, LevelProduct, Horner, Power, Reversed, AllDigits, Times, Signing;
    var w := whole.width;
    ReversedConcat(u, v);
    ReversedDigits(w, u);
    ReversedDigits(w, v);
    DigitsJoin(w, u, v);
    SignedEntry(whole, LevelProduct(a, b), u + v);
    SignedEntry(second, b, u);
    SignedEntry(first, a, v);
    ProductOfWords(w, a, b, Reversed(v), Reversed(u));
    ProductOfWords(w, Antipode(second, b), Antipode(first, a), u, v);
    SignsMultiply(whole.signs, |u|, |v|, b[Horner(w, Reversed(u))], a[Horner(w, Reversed(v))]);
  }

  lemma DigitsJoin(w: nat, u: seq<nat>, v: seq<nat>)
    requires AllDigits(w, u) && AllDigits(w, v)
    ensures AllDigits(w, u + v)
  {
  }

  function Signing(signs: bool, n: nat, x: real): real {
    if signs then MinusOneTo(n) * x else x
  }

  lemma SignedEntry(level: Level, src: seq<real>, word: seq<nat>)
    requires level.Valid() && |src| == level.Size()
    requires |word| == level.degree && AllDigits(level.width, word)
    ensures Horner(level.width, word) < |src| && Horner(level.width, Reversed(word)) < |src|
    ensures Antipode(level, src)[Horner(level.width, word)]
         == Signing(level.signs, |word|, src[Horner(level.width, Reversed(word))])
  {
    hide Antipode, Horner, Power, Reversed, AllDigits, MinusOneTo;
    AntipodeOfWord(level, src, word);
  }

  lemma SignsMultiply(signs: bool, n: nat, k: nat, x: real, y: real)
    ensures Signing(signs, n + k, Times(y, x)) == Times(Signing(signs, n, x), Signing(signs, k, y))
  {
    MinusOneIs(n);
    MinusOneIs(k);
    MinusOneIs(n + k);
  }

  function Negated(src: seq<real>): (dst: seq<real>)
    ensures |dst| == |src| && forall i :: 0 <= i < |src| ==> dst[i] == -src[i]
  {
    seq(|src|, i requires 0 <= i < |src| => -src[i])
  }

  /** The empty word stays, and letters go to their negatives. */
  lemma AntipodeOfLetters(level: Level, src: seq<real>)
    requires level.Valid() && |src| == level.Size() && level.degree <= 1
    ensures Antipode(level, src)
         == if level.signs && level.degree == 1 then Negated(src) else src
  {
    forall i: nat | i < |src|
      ensures ReverseIndex(level.degree, level.width, i) == i
    {
      HornerOfDigits(level.width, level.degree, i);
      ReversedShort(Digits(level.width, level.degree, i));
    }
  }

  /** The kernel for the first two levels together: one work-item for each entry, in any order. */
  method LaunchLevel01(dst: array<real>, src: array<real>, signs: bool, schedule: seq<nat>)
    requires dst != src && dst.Length == src.Length
    requires forall idx :: idx in schedule ==> idx < dst.Length
    modifies dst
    ensures forall idx: nat :: idx < dst.Length ==>
              dst[idx] == if idx in schedule then FirstLevels(signs, src[..])[idx] else old(dst[idx])
  {
    for i := 0 to |schedule|
      invariant forall idx: nat :: idx < dst.Length ==>
                  dst[idx] == if idx in schedule[..i] then FirstLevels(signs, src[..])[idx] else old(dst[idx])
    {
      var idx := schedule[i];
      assert idx in schedule;
      dst[idx] := if signs && idx > 0 then -src[idx] else src[idx];
    }
    assert schedule[..|schedule|] == schedule;
  }

  function FirstLevels(signs: bool, src: seq<real>): (dst: seq<real>)
    ensures |dst| == |src|
  {
    seq(|src|, i requires 0 <= i < |src| => if signs && i > 0 then -src[i] else src[i])
  }

  /** It leaves the antipode of each of the two levels. */
  lemma FirstLevelsAreAntipode(signs: bool, width: nat, src: seq<real>)
    requires width > 0 && |src| == 1 + width
    ensures var empty, letters := Level(width, 0, 0, signs), Level(width, 1, 0, signs);
            && empty.Size() == 1 && letters.Size() == width
            && FirstLevels(signs, src) == Antipode(empty, src[..1]) + Antipode(letters, src[1..])
  {
    var empty, letters := Level(width, 0, 0, signs), Level(width, 1, 0, signs);
    assert Power(width, 1) == Power(width, 0) * width;
    AntipodeOfLetters(empty, src[..1]);
    AntipodeOfLetters(letters, src[1..]);
    hide Power, Antipode;
    FirstLevelsSplit(signs, src);
  }

  lemma FirstLevelsSplit(signs: bool, src: seq<real>)
    requires src != []
    ensures FirstLevels(signs, src) == src[..1] + (if signs then Negated(src[1..]) else src[1..])
  {
  }

  // ----- cells -----

  lemma TargetIsReversal(level: Level, x: nat, m: nat, y: nat)
    requires level.Valid() && level.Holds(x, m, y)
    ensures level.Source(x, m, y) < level.Size() && level.Target(x, m, y) < level.Size()
    ensures level.Target(x, m, y) == ReverseIndex(level.degree, level.width, level.Source(x, m, y))
    ensures ReverseIndex(level.degree, level.width, level.Target(x, m, y)) == level.Source(x, m, y)
  {
    AddressReverses(level.width, level.MidDegree(), level.tile, x, m, y);
    ReverseIsInvolution(level.degree, level.width, level.Source(x, m, y));
  }

  lemma TargetInjective(level: Level, x: nat, m: nat, y: nat, x': nat, m': nat, y': nat)
    requires level.Valid() && level.Holds(x, m, y) && level.Holds(x', m', y')
    requires level.Target(x, m, y) == level.Target(x', m', y')
    ensures (x, m, y) == (x', m', y')
  {
    TargetIsReversal(level, x, m, y);
    TargetIsReversal(level, x', m', y');
    AddressInjective(level.width, level.MidDegree(), level.tile, x, m, y, x', m', y');
  }

  /** The cell for (x, m, y) has been written, or else still is what it was. */
  ghost predicate CellIs(level: Level, dst: seq<real>, before: seq<real>, src: seq<real>, done: iset<Place>, x: nat,
                         m: nat, y: nat)
    requires level.Valid() && |dst| == |before| == |src| == level.Size()
  {
    level.Holds(x, m, y) ==>
      (TargetIsReversal(level, x, m, y);
       dst[level.Target(x, m, y)]
         == if (x, m, y) in done then level.Signed(src[level.Source(x, m, y)]) else before[level.Target(x, m, y)])
  }

  ghost predicate Wrote(level: Level, dst: seq<real>, before: seq<real>, src: seq<real>, done: iset<Place>)
    requires level.Valid()
  {
    && |dst| == |before| == |src| == level.Size()
    && forall x: nat, m: nat, y: nat :: CellIs(level, dst, before, src, done, x, m, y)
  }

  lemma WroteOne(level: Level, dst: seq<real>, before: seq<real>, src: seq<real>, done: iset<Place>, x: nat, m: nat,
                 y: nat)
    requires level.Valid() && Wrote(level, dst, before, src, done) && level.Holds(x, m, y)
    ensures level.Target(x, m, y) < |dst| && level.Source(x, m, y) < |src|
    ensures Wrote(level, dst[level.Target(x, m, y) := level.Signed(src[level.Source(x, m, y)])], before, src,
                  done + iset{(x, m, y)})
  {
    TargetIsReversal(level, x, m, y);
    var dst' := dst[level.Target(x, m, y) := level.Signed(src[level.Source(x, m, y)])];
    forall x': nat, m': nat, y': nat
      ensures CellIs(level, dst', before, src, done + iset{(x, m, y)}, x', m', y')
    {
      OtherCell(level, dst, before, src, done, x, m, y, x', m', y');
    }
  }

  lemma OtherCell(level: Level, dst: seq<real>, before: seq<real>, src: seq<real>, done: iset<Place>,
                  x: nat, m: nat, y: nat, x': nat, m': nat, y': nat)
    requires level.Valid() && level.Holds(x, m, y) && |dst| == |before| == |src| == level.Size()
    requires level.Target(x, m, y) < |dst| && level.Source(x, m, y) < |src|
    requires CellIs(level, dst, before, src, done, x', m', y')
    ensures CellIs(level, dst[level.Target(x, m, y) := level.Signed(src[level.Source(x, m, y)])], before, src,
                   done + iset{(x, m, y)}, x', m', y')
  {
    if level.Holds(x', m', y') {
      TargetIsReversal(level, x', m', y');
      if level.Target(x, m, y) == level.Target(x', m', y') {
        TargetInjective(level, x, m, y, x', m', y');
      }
    }
  }

  /** With every place done the level is the antipode of the source. */
  lemma WroteAll(level: Level, dst: seq<real>, before: seq<real>, src: seq<real>, done: iset<Place>)
    requires level.Valid() && Wrote(level, dst, before, src, done)
    requires forall x: nat, m: nat, y: nat :: level.Holds(x, m, y) ==> (x, m, y) in done
    ensures dst == Antipode(level, src)
  {
    forall i | 0 <= i < |dst|
      ensures dst[i] == Antipode(level, src)[i]
    {
      ReverseIsInvolution(level.degree, level.width, i);
      var x, m, y := PlaceOf(level.width, level.MidDegree(), level.tile, ReverseIndex(level.degree, level.width, i));
      TargetIsReversal(level, x, m, y);
      assert CellIs(level, dst, before, src, done, x, m, y);
    }
  }

  // ----- the kernel -----

  /** The positions that a loop from `start` in steps of `stride` visits. */
  predicate Strided(i: int, start: int, stride: int)
    requires stride > 0
  {
    i >= start && (i - start) % stride == 0
  }

  lemma NextStrided(i: int, start: int, stride: int)
    requires stride > 0 && Strided(i, start, stride)
    ensures Strided(i + stride, start, stride)
    ensures forall j :: i < j < i + stride ==> !Strided(j, start, stride)
  {
    var q := (i - start) / stride;
    assert i - start == q * stride;
    Distribute(q, 1, stride);
    QuotientOf(q + 1, stride, 0);
    forall j | i < j < i + stride
      ensures !Strided(j, start, stride)
    {
      QuotientOf(q, stride, j - i);
      assert j - start == q * stride + (j - i);
    }
  }

  /** The entry of the table of sizes for a length. */
  ghost predicate Levels(levels: seq<nat>, level: Level) {
    && |levels| >= 2 && |levels| > level.degree
    && forall k :: 0 <= k < |levels| ==> levels[k] == Power(level.width, k)
  }

  lemma LevelsHold(levels: seq<nat>, level: Level)
    requires level.Valid() && Levels(levels, level)
    ensures |levels| > 1 && |levels| > level.degree && levels[1] == level.width
    ensures levels[level.tile] == Power(level.width, level.tile)
    ensures levels[level.MidDegree()] == Power(level.width, level.MidDegree())
  {
    assert Power(level.width, 1) == Power(level.width, 0) * level.width;
  }

  /** What a work-item of a group writes. */
  ghost predicate Visits(group: nat, groups: nat, local: nat, sx: nat, sy: nat, p: Place)
    requires groups > 0 && sx > 0 && sy > 0
  {
    Strided(p.1, group, groups) && Strided(p.0, local, sx) && Strided(p.2, local, sy)
  }

  ghost function Visited(level: Level, group: nat, groups: nat, local: nat, sx: nat, sy: nat): iset<Place>
    requires level.Valid() && groups > 0 && sx > 0 && sy > 0
  {
    iset x: nat, m: nat, y: nat | level.Holds(x, m, y) && Visits(group, groups, local, sx, sy, (x, m, y)) :: (x, m, y)
  }

  method Row(dst: array<real>, src: array<real>, levels: seq<nat>, level: Level, ix: nat, jx: nat, midIdx: nat,
             rmidIdx: nat,
             local: nat, sy: nat, ghost before: seq<real>, ghost done0: iset<Place>)
    returns (ghost done: iset<Place>)
    requires level.Valid() && Levels(levels, level) && dst != src && sy > 0
    requires ix < Power(level.width, level.tile) && midIdx < Power(level.width, level.MidDegree())
    requires jx == ReverseIndex(level.tile, level.width, ix)
    requires rmidIdx == ReverseIndex(level.MidDegree(), level.width, midIdx)
    requires Wrote(level, dst[..], before, src[..], done0)
    modifies dst
    ensures Wrote(level, dst[..], before, src[..], done)
    ensures forall p: Place :: p in done <==>
              p in done0 || (p.0 == ix && p.1 == midIdx && p.2 < Power(level.width, level.tile)
                             && Strided(p.2, local, sy))
  {
    LevelsHold(levels, level);
    hide Wrote, Power, Levels, ReverseIndex;
    done := done0;
    var iy := local;
    while iy < levels[level.tile]
      invariant Strided(iy, local, sy)
      invariant Wrote(level, dst[..], before, src[..], done)
      invariant forall p: Place :: p in done <==>
                  p in done0 || (p.0 == ix && p.1 == midIdx && p.2 < Power(level.width, level.tile) && p.2 < iy
                                 && Strided(p.2, local, sy))
      decreases levels[level.tile] - iy
    {
      var jy := ReverseIndexLoop(level.tile, levels[1], iy);
      WroteOne(level, dst[..], before, src[..], done, ix, midIdx, iy);
      ghost var was := dst[..];
      dst[(jy * levels[level.MidDegree()] + rmidIdx) * levels[level.tile] + jx]
        := level.Signed(src[(ix * levels[level.MidDegree()] + midIdx) * levels[level.tile] + iy]);
      assert dst[..] == was[level.Target(ix, midIdx, iy) := level.Signed(src[..][level.Source(ix, midIdx, iy)])];
      done := done + iset{(ix, midIdx, iy)};
      NextStrided(iy, local, sy);
      iy := iy + sy;
    }
  }

  method Tile(dst: array<real>, src: array<real>, levels: seq<nat>, level: Level, midIdx: nat,
              local: nat, sx: nat, sy: nat, ghost before: seq<real>, ghost done0: iset<Place>)
    returns (ghost done: iset<Place>)
    requires level.Valid() && Levels(levels, level) && dst != src && sx > 0 && sy > 0
    requires midIdx < Power(level.width, level.MidDegree())
    requires Wrote(level, dst[..], before, src[..], done0)
    modifies dst
    ensures Wrote(level, dst[..], before, src[..], done)
    ensures forall p: Place :: p in done <==>
              p in done0 || (p.1 == midIdx && InTile(level, p) && Strided(p.0, local, sx) && Strided(p.2, local, sy))
  {
    LevelsHold(levels, level);
    hide Wrote, Power, Levels, ReverseIndex;
    done := done0;
    var rmidIdx := ReverseIndexLoop(level.MidDegree(), levels[1], midIdx);
    var ix := local;
    while ix < levels[level.tile]
      invariant Strided(ix, local, sx)
      invariant Wrote(level, dst[..], before, src[..], done)
      invariant forall p: Place :: p in done <==>
                  p in done0 || (p.1 == midIdx && InTile(level, p) && p.0 < ix && Strided(p.0, local, sx)
                                 && Strided(p.2, local, sy))
      decreases levels[level.tile] - ix
    {
      var jx := ReverseIndexLoop(level.tile, levels[1], ix);
      NextStrided(ix, local, sx);
      hide Strided;
      done := Row(dst, src, levels, level, ix, jx, midIdx, rmidIdx, local, sy, before, done);
      ix := ix + sx;
    }
  }

  ghost predicate InTile(level: Level, p: Place) {
    p.0 < Power(level.width, level.tile) && p.2 < Power(level.width, level.tile)
  }

  /** One work-item of a group: of all cells it writes exactly its own, each with the signed
      source of the reversed place. */
  method WorkItem(dst: array<real>, src: array<real>, levels: seq<nat>, level: Level,
                  group: nat, groups: nat, local: nat, sx: nat, sy: nat, ghost before: seq<real>,
                      ghost done0: iset<Place>)
    requires level.Valid() && Levels(levels, level) && dst != src && groups > 0 && sx > 0 && sy > 0
    requires Wrote(level, dst[..], before, src[..], done0)
    modifies dst
    ensures Wrote(level, dst[..], before, src[..], done0 + Visited(level, group, groups, local, sx, sy))
  {
    LevelsHold(levels, level);
    hide Wrote, Power, Levels, ReverseIndex;
    ghost var done := done0;
    var midIdx := group;
    while midIdx < levels[level.MidDegree()]
      invariant Strided(midIdx, group, groups)
      invariant Wrote(level, dst[..], before, src[..], done)
      invariant forall p: Place :: p in done <==>
                  p in done0 || (p.1 < midIdx && level.Holds(p.0, p.1, p.2) && Visits(group, groups, local, sx, sy, p))
      decreases levels[level.MidDegree()] - midIdx
    {
      NextStrided(midIdx, group, groups);
      hide Strided;
      done := Tile(dst, src, levels, level, midIdx, local, sx, sy, before, done);
      midIdx := midIdx + groups;
    }
    assert done == done0 + Visited(level, group, groups, local, sx, sy);
  }

  // ----- the whole launch -----

  ghost function VisitedBy(level: Level, schedule: seq<(nat, nat)>, groups: nat, sx: nat, sy: nat): iset<Place>
    requires level.Valid() && groups > 0 && sx > 0 && sy > 0
  {
    if schedule == [] then iset{}
    else VisitedBy(level, schedule[..|schedule| - 1], groups, sx, sy)
         + Visited(level, schedule[|schedule| - 1].0, groups, schedule[|schedule| - 1].1, sx, sy)
  }

  /** The work-items of a launch, given by group and place in the group, in any order. */
  method Launch(dst: array<real>, src: array<real>, levels: seq<nat>, level: Level,
                schedule: seq<(nat, nat)>, groups: nat, sx: nat, sy: nat)
    requires level.Valid() && Levels(levels, level) && dst != src && groups > 0 && sx > 0 && sy > 0
    requires dst.Length == src.Length == level.Size()
    modifies dst
    ensures Wrote(level, dst[..], old(dst[..]), src[..], VisitedBy(level, schedule, groups, sx, sy))
    ensures Covers(level, schedule, groups, sx, sy) ==> dst[..] == Antipode(level, src[..])
  {
    ghost var before := dst[..];
    assert Wrote(level, dst[..], before, src[..], iset{});
    hide Wrote, Visited, Levels, Power;
    for i := 0 to |schedule|
      invariant Wrote(level, dst[..], before, src[..], VisitedBy(level, schedule[..i], groups, sx, sy))
    {
      assert schedule[..i + 1][..i] == schedule[..i];
      WorkItem(dst, src, levels, level, schedule[i].0, groups, schedule[i].1, sx, sy, before,
               VisitedBy(level, schedule[..i], groups, sx, sy));
    }
    assert schedule[..|schedule|] == schedule;
    CoveredIsAntipode(level, dst[..], before, src[..], schedule, groups, sx, sy);
  }

  ghost predicate CoversPlace(level: Level, schedule: seq<(nat, nat)>, groups: nat, sx: nat, sy: nat, x: nat, m: nat,
                              y: nat)
    requires level.Valid() && groups > 0 && sx > 0 && sy > 0
  {
    level.Holds(x, m, y) ==>
      exists i :: 0 <= i < |schedule| && Visits(schedule[i].0, groups, schedule[i].1, sx, sy, (x, m, y))
  }

  ghost predicate Covers(level: Level, schedule: seq<(nat, nat)>, groups: nat, sx: nat, sy: nat)
    requires level.Valid() && groups > 0 && sx > 0 && sy > 0
  {
    forall x: nat, m: nat, y: nat :: CoversPlace(level, schedule, groups, sx, sy, x, m, y)
  }

  lemma {:induction false} VisitedByItem(level: Level, schedule: seq<(nat, nat)>, groups: nat, sx: nat, sy: nat,
                                         i: nat, p: Place)
    requires level.Valid() && groups > 0 && sx > 0 && sy > 0 && i < |schedule|
    requires level.Holds(p.0, p.1, p.2) && Visits(schedule[i].0, groups, schedule[i].1, sx, sy, p)
    ensures p in VisitedBy(level, schedule, groups, sx, sy)
    decreases |schedule|
  {
    if i < |schedule| - 1 {
      VisitedByItem(level, schedule[..|schedule| - 1], groups, sx, sy, i, p);
    }
  }

  lemma CoveredIsAntipode(level: Level, dst: seq<real>, before: seq<real>, src: seq<real>,
                          schedule: seq<(nat, nat)>, groups: nat, sx: nat, sy: nat)
    requires level.Valid() && groups > 0 && sx > 0 && sy > 0
    requires Wrote(level, dst, before, src, VisitedBy(level, schedule, groups, sx, sy))
    ensures |src| == level.Size() && (Covers(level, schedule, groups, sx, sy) ==> dst == Antipode(level, src))
  {
    if Covers(level, schedule, groups, sx, sy) {
      forall x: nat, m: nat, y: nat | level.Holds(x, m, y)
        ensures (x, m, y) in VisitedBy(level, schedule, groups, sx, sy)
      {
        assert CoversPlace(level, schedule, groups, sx, sy, x, m, y);
        var i :| 0 <= i < |schedule| && Visits(schedule[i].0, groups, schedule[i].1, sx, sy, (x, m, y));
        VisitedByItem(level, schedule, groups, sx, sy, i, (x, m, y));
      }
      WroteAll(level, dst, before, src, VisitedBy(level, schedule, groups, sx, sy));
    }
  }

  /** All work-items of all groups, each at least once. */
  ghost predicate Complete(schedule: seq<(nat, nat)>, groups: nat, sx: nat) {
    && (forall g: nat, l: nat {:trigger (g, l) in schedule} :: g < groups && l < sx ==> (g, l) in schedule)
    && (forall i :: 0 <= i < |schedule| ==> schedule[i].0 < groups && schedule[i].1 < sx)
  }

  /** A complete launch writes the whole level exactly if there is nothing to tile or a group has
      a single work-item: both loops of a work-item start from its first coordinate. */
  lemma CoverageExactly(level: Level, schedule: seq<(nat, nat)>, groups: nat, sx: nat, sy: nat)
    requires level.Valid() && groups > 0 && sx > 0 && sy > 0 && Complete(schedule, groups, sx)
    ensures Covers(level, schedule, groups, sx, sy) <==> Power(level.width, level.tile) == 1 || (sx == 1 && sy == 1)
  {
    if Power(level.width, level.tile) == 1 || (sx == 1 && sy == 1) {
      forall x: nat, m: nat, y: nat
        ensures CoversPlace(level, schedule, groups, sx, sy, x, m, y)
      {
        FindItem(level, schedule, groups, sx, sy, x, m, y);
      }
    } else {
      PowerPositive(level.width, level.tile);
      PowerPositive(level.width, level.MidDegree());
      if sy > 1 {
        assert Unvisited(schedule, groups, sx, sy, (0, 0, 1));
        assert !CoversPlace(level, schedule, groups, sx, sy, 0, 0, 1);
      } else {
        assert Unvisited(schedule, groups, sx, sy, (1, 0, 0));
        assert !CoversPlace(level, schedule, groups, sx, sy, 1, 0, 0);
      }
    }
  }

  ghost predicate Unvisited(schedule: seq<(nat, nat)>, groups: nat, sx: nat, sy: nat, p: Place)
    requires groups > 0 && sx > 0 && sy > 0
  {
    forall i :: 0 <= i < |schedule| ==> !Visits(schedule[i].0, groups, schedule[i].1, sx, sy, p)
  }

  lemma FindItem(level: Level, schedule: seq<(nat, nat)>, groups: nat, sx: nat, sy: nat, x: nat, m: nat, y: nat)
    requires level.Valid() && groups > 0 && sx > 0 && sy > 0 && Complete(schedule, groups, sx)
    requires Power(level.width, level.tile) == 1 || (sx == 1 && sy == 1)
    ensures CoversPlace(level, schedule, groups, sx, sy, x, m, y)
  {
    if level.Holds(x, m, y) {
      var g := m % groups;
      assert (g, 0) in schedule;
      var i :| 0 <= i < |schedule| && schedule[i] == (g, 0);
      assert m == (m / groups) * groups + g;
      QuotientOf(m / groups, groups, 0);
      assert Strided(m, g, groups);
      assert Strided(0, 0, sx) && Strided(0, 0, sy);
      assert Visits(g, groups, 0, sx, sy, (x, m, y));
    }
  }
}
