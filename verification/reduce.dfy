/** `PlotHeatMapReduce.reduce`: the partial maps of all mappers are folded
    into one by cloning the first and combining every other into the clone,
    and the result is turned into the image. */
module Reduce {
  import opened JavaInt
  import opened Results
  import opened FrequencyMaps
  import opened ValueRanges
  import opened Render

  /** The exact integer sum of `vs`. */
  ghost function IntSum(vs: seq<int32>): int
  {
    if |vs| == 0 then 0 else IntSum(vs[..|vs| - 1]) + vs[|vs| - 1] as int
  }

  /** `vs[0] + vs[1] + ...` left to right in Java int: the true sum, wrapped. */
  function SumOf(vs: seq<int32>): (r: int32)
    ensures r == Wrap(IntSum(vs))
  {
    if |vs| == 0 then 0
    else
      var prefix := SumOf(vs[..|vs| - 1]);
      var t := IntSum(vs[..|vs| - 1]);
      WrapCongruent(prefix as int + vs[|vs| - 1] as int, t + vs[|vs| - 1] as int, (prefix as int - t) / MODULUS);
      Add(prefix, vs[|vs| - 1])
  }

  /** Removing the element at `j` lowers the sum by exactly that element. */
  lemma {:induction false} IntSumRemove(vs: seq<int32>, j: nat)
    requires j < |vs|
    ensures IntSum(vs) == IntSum(vs[..j] + vs[j + 1..]) + vs[j] as int
  {
    var n := |vs|;
    if j < n - 1 {
      var rest := vs[..j] + vs[j + 1..];
      assert rest[..|rest| - 1] == vs[..n - 1][..j] + vs[..n - 1][j + 1..];
      assert rest[|rest| - 1] == vs[n - 1];
      IntSumRemove(vs[..n - 1], j);
    } else {
      assert vs[..j] + vs[j + 1..] == vs[..n - 1];
    }
  }

  /** Taking out the element at `j` takes it out of the multiset. */
  lemma MultisetRemove<T>(s: seq<T>, j: nat)
    requires j < |s|
    ensures multiset(s[..j] + s[j + 1..]) == multiset(s) - multiset{s[j]}
  {
    assert s == s[..j] + [s[j]] + s[j + 1..];
  }

  /** Two permutations of each other, with the last element of `a` taken out
      of `a` and one occurrence of it (at `j`) taken out of `b`, are still
      permutations of each other. */
  lemma PermutationRemove<T>(a: seq<T>, b: seq<T>, j: nat)
    requires |a| > 0 && j < |b| && multiset(a) == multiset(b) && b[j] == a[|a| - 1]
    ensures multiset(a[..|a| - 1]) == multiset(b[..j] + b[j + 1..])
  {
    MultisetRemove(a, |a| - 1);
    MultisetRemove(b, j);
    assert a[..|a| - 1] + a[|a| - 1 + 1..] == a[..|a| - 1];
  }

  /** The integer sum depends only on the multiset of summands. */
  lemma {:induction false} IntSumPermutation(a: seq<int32>, b: seq<int32>)
    requires multiset(a) == multiset(b)
    ensures IntSum(a) == IntSum(b)
    decreases |a|
  {
    if |a| > 0 {
      var n := |a|;
      var v := a[n - 1];
      assert v in multiset(b);
      var j :| 0 <= j < |b| && b[j] == v;
      PermutationRemove(a, b, j);
      IntSumPermutation(a[..n - 1], b[..j] + b[j + 1..]);
      IntSumRemove(b, j);
    } else {
      assert |b| == 0;
    }
  }

  /** Java's wrapping sum is order-independent as well. */
  lemma SumOfPermutation(a: seq<int32>, b: seq<int32>)
    requires multiset(a) == multiset(b)
    ensures SumOf(a) == SumOf(b)
  {
    IntSumPermutation(a, b);
  }

  /** Cell (x, y) of `m`; 0 stands in where `m` has no such cell, which never
      happens for the maps the fold accepts. */
  function Cell(m: FrequencyMap, x: nat, y: nat): int32
  {
    if x < |m.frequency| && y < |m.frequency[x]| then m.frequency[x][y] else 0
  }

  /** The value of cell (x, y) in each map, in input order. */
  function CellValues(maps: seq<FrequencyMap>, x: nat, y: nat): (vs: seq<int32>)
    ensures |vs| == |maps| && forall i | 0 <= i < |maps| :: vs[i] == Cell(maps[i], x, y)
  {
    seq(|maps|, i requires 0 <= i < |maps| => Cell(maps[i], x, y))
  }

  lemma CellValuesAppend(a: seq<FrequencyMap>, b: seq<FrequencyMap>, x: nat, y: nat)
    ensures CellValues(a + b, x, y) == CellValues(a, x, y) + CellValues(b, x, y)
  {
  }

  /** Taking a map out takes its value out of the cell values. */
  lemma CellValuesRemove(b: seq<FrequencyMap>, j: nat, x: nat, y: nat)
    requires j < |b|
    ensures multiset(CellValues(b[..j] + b[j + 1..], x, y)) == multiset(CellValues(b, x, y)) - multiset{Cell(b[j], x, y)}
  {
    var vb := CellValues(b, x, y);
    assert CellValues(b[..j] + b[j + 1..], x, y) == vb[..j] + vb[j + 1..];
    MultisetRemove(vb, j);
  }

  /** Two multisets that hold `c` and agree once one `c` is taken out agree. */
  lemma MultisetCancel<T>(va: multiset<T>, vb: multiset<T>, c: T)
    requires c in va && c in vb && va - multiset{c} == vb - multiset{c}
    ensures va == vb
  {
    assert va == va - multiset{c} + multiset{c};
    assert vb == vb - multiset{c} + multiset{c};
  }

  /** Permuting the maps permutes their cell values. */
  lemma {:induction false} CellValuesPermutation(a: seq<FrequencyMap>, b: seq<FrequencyMap>, x: nat, y: nat)
    requires multiset(a) == multiset(b)
    ensures multiset(CellValues(a, x, y)) == multiset(CellValues(b, x, y))
    decreases |a|
  {
    if |a| > 0 {
      var n := |a|;
      assert a[n - 1] in multiset(b);
      var j :| 0 <= j < |b| && b[j] == a[n - 1];
      PermutationRemove(a, b, j);
      var rest := b[..j] + b[j + 1..];
      CellValuesPermutation(a[..n - 1], rest, x, y);
      var c := Cell(b[j], x, y);
      assert a[..n - 1] + a[n - 1 + 1..] == a[..n - 1];
      CellValuesRemove(a, n - 1, x, y);
      CellValuesRemove(b, j, x, y);
      assert CellValues(a, x, y)[n - 1] == c && CellValues(b, x, y)[j] == c;
      MultisetCancel(multiset(CellValues(a, x, y)), multiset(CellValues(b, x, y)), c);
    } else {
      assert |b| == 0;
    }
  }

  /** The maps the fold accepts: a first map with a readable height, and
      every map of exactly its size. */
  predicate Uniform(maps: seq<FrequencyMap>)
    requires |maps| > 0
  {
    Width(maps[0]) > 0 && forall i | 0 <= i < |maps| :: Width(maps[i]) == Width(maps[0]) && Height(maps[i]) == Height(maps[0])
  }

  lemma SumOfSnoc(vs: seq<int32>, v: int32)
    ensures SumOf(vs + [v]) == Add(SumOf(vs), v)
  {
    assert (vs + [v])[..|vs|] == vs;
  }

  /** The clone-then-combine fold. No input gives no map. A width-0 first map
      fails in `clone`; the first later map of another size fails in
      `combine`, with the failure of `getHeight` when that map has width 0.
      Otherwise the result has the first map's size and every cell is the
      wrapped sum of that cell over all inputs; the inputs themselves are
      values and stay as they were. */
  method CombineAll(maps: seq<FrequencyMap>) returns (r: Result<Option<FrequencyMap>>)
    requires forall i | 0 <= i < |maps| :: Valid(maps[i])
    ensures r == Ok(None) <==> |maps| == 0
    ensures r.Err? <==> |maps| > 0 && !Uniform(maps)
    ensures r.Err? && Width(maps[0]) == 0 ==> r.error == ArrayIndexOutOfBounds
    ensures r.Err? && Width(maps[0]) > 0 ==>
              exists k | 0 < k < |maps| ::
                && SizedLike(maps, k, Width(maps[0]), Height(maps[0]))
                && !(Width(maps[k]) == Width(maps[0]) && Height(maps[k]) == Height(maps[0]))
                && r.error == (if Width(maps[k]) == 0 then ArrayIndexOutOfBounds else IncompatibleSizes)
    ensures r.Ok? && r.value.Some? ==>
              && Valid(r.value.value)
              && Width(r.value.value) == Width(maps[0]) && Height(r.value.value) == Height(maps[0])
    ensures r.Ok? && r.value.Some? ==>
              forall x, y | 0 <= x < Width(maps[0]) && 0 <= y < Height(maps[0]) ::
                r.value.value.frequency[x][y] == SumOf(CellValues(maps, x, y))
  {
    if |maps| == 0 {
      return Ok(None);
    }
    var c := Clone(maps[0]);
    if c.Err? {
      return Err(c.error);
    }
    var combined := c.value;
    var w, h := Width(maps[0]), Height(maps[0]);
    FoldBase(maps, combined, w, h);
    for i := 1 to |maps|
      invariant Valid(combined) && Width(combined) == w && Height(combined) == h
      invariant SizedLike(maps, i, w, h)
      invariant HoldsSums(combined.frequency, maps[..i], w, h)
    {
      var next := Combine(combined, maps[i]);
      if next.Err? {
        assert !(Width(maps[i]) == w && Height(maps[i]) == h);
        assert SizedLike(maps, i, w, h);
        return Err(next.error);
      }
      FoldStep(maps, i, combined, next.value, w, h);
      combined := next.value;
    }
    assert maps[..|maps|] == maps;
    return Ok(Some(combined));
  }

  /** The first n maps all have size w×h. */
  predicate SizedLike(maps: seq<FrequencyMap>, n: nat, w: nat, h: nat)
    requires n <= |maps|
  {
    forall k | 0 <= k < n :: Width(maps[k]) == w && Height(maps[k]) == h
  }

  /** Every cell of the w×h grid `f` is the wrapped sum of that cell over `maps`. */
  predicate HoldsSums(f: Grid, maps: seq<FrequencyMap>, w: nat, h: nat)
    requires IsGrid(f, w, h)
  {
    forall x, y | 0 <= x < w && 0 <= y < h :: f[x][y] == SumOf(CellValues(maps, x, y))
  }

  /** `reduce`: no partial map means no output; otherwise the folded map is
      drawn with the configured range and zero-skipping. The image fails for
      inputs the fold rejects, for maps of height 0 and for maps of more cells
      than one Java array holds. Pixel (x, y) is painted from the cell's
      wrapped sum over all partial maps; without a configured range the
      colours span exactly the smallest and largest of these sums. */
  method ReduceToImage(maps: seq<FrequencyMap>, valueRange: Option<MinMax>, skipZeros: bool) returns (r: Result<Option<Image>>)
    requires forall i | 0 <= i < |maps| :: Valid(maps[i])
    ensures |maps| == 0 ==> r == Ok(None)
    ensures |maps| > 0 ==> (r.Err? <==> !Uniform(maps) || Height(maps[0]) == 0
                                         || !ArrayFits(Width(maps[0]) * Height(maps[0])))
    ensures |maps| > 0 && r.Ok? ==> r.value.Some? && IsGrid(r.value.value.pixels, Width(maps[0]), Height(maps[0]))
    ensures r.Ok? && r.value.Some? && valueRange.Some? ==> r.value.value.range == valueRange.value
    ensures |maps| > 0 && r.Ok? && valueRange.None? ==>
              var range := r.value.value.range;
              && (forall x, y | 0 <= x < Width(maps[0]) && 0 <= y < Height(maps[0]) ::
                    range.minValue <= SumOf(CellValues(maps, x, y)) <= range.maxValue)
              && (exists x, y | 0 <= x < Width(maps[0]) && 0 <= y < Height(maps[0]) ::
                    SumOf(CellValues(maps, x, y)) == range.minValue)
              && (exists x, y | 0 <= x < Width(maps[0]) && 0 <= y < Height(maps[0]) ::
                    SumOf(CellValues(maps, x, y)) == range.maxValue)
    ensures r.Ok? && r.value.Some? ==>
              forall x, y | 0 <= x < Width(maps[0]) && 0 <= y < Height(maps[0]) ::
                var sum := SumOf(CellValues(maps, x, y));
                r.value.value.pixels[x][y] == (if Paints(skipZeros, sum) then Painted(sum) else Transparent)
  {
    var combined := CombineAll(maps);
    if combined.Err? {
      return Err(combined.error);
    }
    if combined.value.None? {
      return Ok(None);
    }
    var image := DrawSums(maps, combined.value.value, valueRange, skipZeros);
    if image.Err? {
      return Err(image.error);
    }
    return Ok(Some(image.value));
  }

  /** `toImage` on a map that holds the cell sums of `maps`, stated in terms
      of those sums. */
  method DrawSums(maps: seq<FrequencyMap>, folded: FrequencyMap, valueRange: Option<MinMax>, skipZeros: bool)
    returns (r: Result<Image>)
    requires |maps| > 0 && Valid(folded) && Width(folded) == Width(maps[0]) > 0 && Height(folded) == Height(maps[0])
    requires HoldsSums(folded.frequency, maps, Width(maps[0]), Height(maps[0]))
    ensures r.Err? <==> Height(maps[0]) == 0 || !ArrayFits(Width(maps[0]) * Height(maps[0]))
    ensures r.Ok? ==> IsGrid(r.value.pixels, Width(maps[0]), Height(maps[0]))
    ensures r.Ok? && valueRange.Some? ==> r.value.range == valueRange.value
    ensures r.Ok? && valueRange.None? ==> SumsSpan(maps, Width(maps[0]), Height(maps[0]), r.value.range)
    ensures r.Ok? ==> PaintsSums(r.value.pixels, maps, Width(maps[0]), Height(maps[0]), skipZeros)
  {
    var w, h := Width(maps[0]), Height(maps[0]);
    r := ToImage(folded, valueRange, skipZeros);
    if r.Ok? {
      PaintedFromSums(maps, folded.frequency, r.value.pixels, w, h, skipZeros);
      if valueRange.None? {
        TightOverSums(maps, folded.frequency, w, h, r.value.range);
      }
    }
  }

  /** `range` bounds every cell sum of `maps` and both bounds are attained. */
  ghost predicate SumsSpan(maps: seq<FrequencyMap>, w: nat, h: nat, range: MinMax)
  {
    && (forall x, y | 0 <= x < w && 0 <= y < h ::
          range.minValue <= SumOf(CellValues(maps, x, y)) <= range.maxValue)
    && (exists x, y | 0 <= x < w && 0 <= y < h :: SumOf(CellValues(maps, x, y)) == range.minValue)
    && (exists x, y | 0 <= x < w && 0 <= y < h :: SumOf(CellValues(maps, x, y)) == range.maxValue)
  }

  /** Pixel (x, y) is painted from cell (x, y)'s sum exactly when that sum is painted. */
  ghost predicate PaintsSums(pixels: seq<seq<Pixel>>, maps: seq<FrequencyMap>, w: nat, h: nat, skipZeros: bool)
    requires IsGrid(pixels, w, h)
  {
    forall x, y | 0 <= x < w && 0 <= y < h ::
      var sum := SumOf(CellValues(maps, x, y));
      pixels[x][y] == (if Paints(skipZeros, sum) then Painted(sum) else Transparent)
  }

  /** A range tight for the folded grid spans the cell sums it holds. */
  lemma TightOverSums(maps: seq<FrequencyMap>, f: Grid, w: nat, h: nat, range: MinMax)
    requires IsGrid(f, w, h) && HoldsSums(f, maps, w, h) && IsTightRange(f, w, h, range)
    ensures SumsSpan(maps, w, h, range)
  {
    var x0, y0 :| 0 <= x0 < w && 0 <= y0 < h && f[x0][y0] == range.minValue;
    var x1, y1 :| 0 <= x1 < w && 0 <= y1 < h && f[x1][y1] == range.maxValue;
    assert SumOf(CellValues(maps, x0, y0)) == range.minValue;
    assert SumOf(CellValues(maps, x1, y1)) == range.maxValue;
  }

  /** Pixels painted from the folded grid are painted from the cell sums. */
  lemma PaintedFromSums(maps: seq<FrequencyMap>, f: Grid, pixels: seq<seq<Pixel>>, w: nat, h: nat, skipZeros: bool)
    requires IsGrid(f, w, h) && HoldsSums(f, maps, w, h) && IsGrid(pixels, w, h)
    requires forall x, y | 0 <= x < w && 0 <= y < h :: (pixels[x][y].Painted? <==> Paints(skipZeros, f[x][y]))
    requires forall x, y | 0 <= x < w && 0 <= y < h :: pixels[x][y].Painted? ==> pixels[x][y].value == f[x][y]
    ensures PaintsSums(pixels, maps, w, h, skipZeros)
  {
  }

  /** The clone holds every cell's sum over the first map alone. */
  lemma FoldBase(maps: seq<FrequencyMap>, combined: FrequencyMap, w: nat, h: nat)
    requires |maps| > 0 && IsGrid(maps[0].frequency, w, h) && combined.frequency == maps[0].frequency
    ensures HoldsSums(combined.frequency, maps[..1], w, h)
  {
    forall x, y | 0 <= x < w && 0 <= y < h
      ensures combined.frequency[x][y] == SumOf(CellValues(maps[..1], x, y))
    {
      assert CellValues(maps[..1], x, y) == [] + [maps[0].frequency[x][y]];
      SumOfSnoc([], maps[0].frequency[x][y]);
      AddZero(maps[0].frequency[x][y]);
    }
  }

  /** One `combine` of the fold extends every cell sum by the next map's cell. */
  lemma FoldStep(maps: seq<FrequencyMap>, i: nat, combined: FrequencyMap, next: FrequencyMap, w: nat, h: nat)
    requires i < |maps| && Valid(maps[i]) && Width(maps[i]) == w && Height(maps[i]) == h
    requires IsGrid(combined.frequency, w, h) && IsGrid(next.frequency, w, h)
    requires HoldsSums(combined.frequency, maps[..i], w, h)
    requires forall x, y | 0 <= x < w && 0 <= y < h ::
               next.frequency[x][y] == Add(combined.frequency[x][y], maps[i].frequency[x][y])
    ensures HoldsSums(next.frequency, maps[..i + 1], w, h)
  {
    forall x, y | 0 <= x < w && 0 <= y < h
      ensures next.frequency[x][y] == SumOf(CellValues(maps[..i + 1], x, y))
    {
      assert maps[..i + 1] == maps[..i] + [maps[i]];
      CellValuesAppend(maps[..i], [maps[i]], x, y);
      assert CellValues([maps[i]], x, y) == [maps[i].frequency[x][y]];
      SumOfSnoc(CellValues(maps[..i], x, y), maps[i].frequency[x][y]);
    }
  }

  /** The fold does not depend on the order in which the partial maps arrive:
      a permutation of the inputs is accepted exactly when the original is,
      and then has the same size and the same cell sums. */
  lemma CombineOrderIndependent(a: seq<FrequencyMap>, b: seq<FrequencyMap>)
    requires |a| > 0 && multiset(a) == multiset(b)
    ensures |b| > 0 && (Uniform(b) <==> Uniform(a))
    ensures Uniform(a) ==> Width(b[0]) == Width(a[0]) && Height(b[0]) == Height(a[0])
    ensures forall x, y :: SumOf(CellValues(a, x, y)) == SumOf(CellValues(b, x, y))
  {
    assert a[0] in multiset(b);
    assert b[0] in multiset(a);
    assert |multiset(b)| == |b|;
    if Uniform(a) {
      UniformPermutation(a, b);
    }
    if Uniform(b) {
      UniformPermutation(b, a);
    }
    forall x: nat, y: nat
      ensures SumOf(CellValues(a, x, y)) == SumOf(CellValues(b, x, y))
    {
      CellValuesPermutation(a, b, x, y);
      SumOfPermutation(CellValues(a, x, y), CellValues(b, x, y));
    }
  }

  lemma UniformPermutation(a: seq<FrequencyMap>, b: seq<FrequencyMap>)
    requires |a| > 0 && |b| > 0 && multiset(a) == multiset(b)
    requires Uniform(a)
    ensures Uniform(b) && Width(b[0]) == Width(a[0]) && Height(b[0]) == Height(a[0])
  {
    forall k | 0 <= k < |b|
      ensures Width(b[k]) == Width(a[0]) && Height(b[k]) == Height(a[0])
    {
      assert b[k] in multiset(a);
      var j :| 0 <= j < |a| && a[j] == b[k];
    }
  }
}
