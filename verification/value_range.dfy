/** `FrequencyMap.getValueRange`: one scan over all cells that builds a
    histogram (value -> number of cells holding it) and the minimum and
    maximum cell value. The sorted printing of the histogram is output only
    and does not feed back into the result. */
module ValueRanges {
  import opened JavaInt
  import opened FrequencyMaps

  /** `Aggregate.MinMax`: a lower and an upper bound. Nothing checks that
      minValue <= maxValue. */
  datatype MinMax = MinMax(minValue: int32, maxValue: int32)

  /** value -> number of cells holding it, as a Java `Integer`: a count
      past Integer.MAX_VALUE wraps around like any other int. */
  type Histogram = map<int32, int32>

  /** The range before any value is seen: (Integer.MAX_VALUE, Integer.MIN_VALUE). */
  const EMPTY_RANGE: MinMax := MinMax(MAX as int32, MIN as int32)

  /** `range` is the true minimum and maximum of the w×h cells of `f`. */
  ghost predicate IsTightRange(f: Grid, w: nat, h: nat, range: MinMax)
    requires IsGrid(f, w, h)
  {
    && (forall x, y | 0 <= x < w && 0 <= y < h :: range.minValue <= f[x][y] <= range.maxValue)
    && (exists x, y | 0 <= x < w && 0 <= y < h :: f[x][y] == range.minValue)
    && (exists x, y | 0 <= x < w && 0 <= y < h :: f[x][y] == range.maxValue)
  }

  /** What the scan knows about the values `seen` so far. */
  ghost predicate ScanState(seen: multiset<int32>, lo: int32, hi: int32, histogram: Histogram)
  {
    && (forall v | v in seen :: lo <= v <= hi)
    && (seen == multiset{} ==> lo == MAX as int32 && hi == MIN as int32)
    && (seen != multiset{} ==> lo in seen && hi in seen)
    && (forall v :: v in histogram <==> v in seen)
    && (forall v | v in histogram :: histogram[v] == Wrap(seen[v]))
  }

  /** `MinMax.expand(value)`: widen the range to include `value`. */
  function Expand(r: MinMax, value: int32): MinMax
  {
    MinMax(if value < r.minValue then value else r.minValue,
           if value > r.maxValue then value else r.maxValue)
  }

  /** One histogram update: `put(value, 1)` or `put(value, get(value) + 1)`,
      the increment being Java int addition. */
  function Tally(histogram: Histogram, value: int32): Histogram
  {
    if value !in histogram then histogram[value := 1]
    else histogram[value := Add(histogram[value], 1)]
  }

  lemma ScanStep(seen: multiset<int32>, r: MinMax, histogram: Histogram, value: int32)
    requires ScanState(seen, r.minValue, r.maxValue, histogram)
    ensures var r' := Expand(r, value);
            ScanState(seen + multiset{value}, r'.minValue, r'.maxValue, Tally(histogram, value))
  {
    var seen' := seen + multiset{value};
    var r' := Expand(r, value);
    var h' := Tally(histogram, value);
    forall v | v in seen'
      ensures r'.minValue <= v <= r'.maxValue
    {
      if v != value {
        assert v in seen;
      }
    }
    TallyStep(seen, histogram, value);
  }

  /** The histogram half of `ScanStep`. */
  lemma TallyStep(seen: multiset<int32>, histogram: Histogram, value: int32)
    requires forall v :: v in histogram <==> v in seen
    requires forall v | v in histogram :: histogram[v] == Wrap(seen[v])
    ensures var seen', h' := seen + multiset{value}, Tally(histogram, value);
            && (forall v :: v in h' <==> v in seen')
            && (forall v | v in h' :: h'[v] == Wrap(seen'[v]))
  {
    var seen' := seen + multiset{value};
    var h' := Tally(histogram, value);
    forall v | v in h'
      ensures h'[v] == Wrap(seen'[v])
    {
      if v != value {
        assert h'[v] == histogram[v];
      } else if value in histogram {
        AddOneWrap(seen[v]);
      }
    }
  }

  /** From the multiset of all cell values to the cells themselves. */
  lemma TightFromValues(f: Grid, w: nat, h: nat, lo: int32, hi: int32)
    requires IsGrid(f, w, h) && w > 0 && h > 0
    requires forall v | v in multiset(Flatten(f)) :: lo <= v <= hi
    requires lo in multiset(Flatten(f)) && hi in multiset(Flatten(f))
    ensures IsTightRange(f, w, h, MinMax(lo, hi))
  {
    forall x, y | 0 <= x < w && 0 <= y < h
      ensures lo <= f[x][y] <= hi
    {
      FlattenValues(f, w, h, f[x][y]);
    }
    FlattenValues(f, w, h, lo);
    FlattenValues(f, w, h, hi);
  }

  /** The inner loop of the scan: expand the range and tally every value of
      one column. */
  method ScanColumn(col: seq<int32>, minMax: MinMax, histogram: Histogram, ghost seen: multiset<int32>)
    returns (minMax': MinMax, histogram': Histogram)
    requires ScanState(seen, minMax.minValue, minMax.maxValue, histogram)
    ensures ScanState(seen + multiset(col), minMax'.minValue, minMax'.maxValue, histogram')
  {
    minMax', histogram' := minMax, histogram;
    for y := 0 to |col|
      invariant ScanState(seen + multiset(col[..y]), minMax'.minValue, minMax'.maxValue, histogram')
    {
      var value := col[y];
      ScanStep(seen + multiset(col[..y]), minMax', histogram', value);
      histogram' := Tally(histogram', value);
      minMax' := Expand(minMax', value);
      PrefixGrows(seen, col, y);
    }
    assert col[..|col|] == col;
  }

  lemma PrefixGrows(seen: multiset<int32>, col: seq<int32>, y: nat)
    requires y < |col|
    ensures seen + multiset(col[..y + 1]) == seen + multiset(col[..y]) + multiset{col[y]}
  {
    assert col[..y + 1] == col[..y] + [col[y]];
  }

  /** `getValueRange()`. For a map with at least one cell the range is tight:
      every cell lies within it and both bounds are held by some cell. A map
      without cells yields the untouched initial range. The histogram counts
      every value as often as it occurs among the cells, wrapped to an int
      the way Java's `Integer` counter wraps; a count up to Integer.MAX_VALUE
      is therefore exact. */
  method GetValueRange(m: FrequencyMap) returns (range: MinMax, histogram: Histogram)
    requires Valid(m)
    ensures Width(m) == 0 || Height(m) == 0 ==> range == EMPTY_RANGE
    ensures Width(m) > 0 && Height(m) > 0 ==> IsTightRange(m.frequency, Width(m), Height(m), range)
    ensures forall v :: v in histogram <==> v in multiset(Flatten(m.frequency))
    ensures forall v | v in histogram :: histogram[v] == Wrap(multiset(Flatten(m.frequency))[v])
    ensures forall v | v in histogram && multiset(Flatten(m.frequency))[v] <= MAX ::
              histogram[v] as int == multiset(Flatten(m.frequency))[v]
  {
    var f := m.frequency;
    range := EMPTY_RANGE;
    histogram := map[];
    for x := 0 to |f|
      invariant ScanState(multiset(Flatten(f[..x])), range.minValue, range.maxValue, histogram)
    {
      range, histogram := ScanColumn(f[x], range, histogram, multiset(Flatten(f[..x])));
      FlattenPrefix(f, x);
    }
    assert f[..|f|] == f;
    ScanResult(m, range, histogram);
  }

  lemma FlattenPrefix(f: Grid, x: nat)
    requires x < |f|
    ensures multiset(Flatten(f[..x + 1])) == multiset(Flatten(f[..x])) + multiset(f[x])
  {
    assert f[..x + 1] == f[..x] + [f[x]];
    FlattenAppend(f[..x], [f[x]]);
    assert Flatten([f[x]]) == f[x];
  }

  lemma ScanResult(m: FrequencyMap, range: MinMax, histogram: Histogram)
    requires Valid(m)
    requires ScanState(multiset(Flatten(m.frequency)), range.minValue, range.maxValue, histogram)
    ensures Width(m) == 0 || Height(m) == 0 ==> range == EMPTY_RANGE
    ensures Width(m) > 0 && Height(m) > 0 ==> IsTightRange(m.frequency, Width(m), Height(m), range)
  {
    if Width(m) > 0 && Height(m) > 0 {
      TightFromValues(m.frequency, Width(m), Height(m), range.minValue, range.maxValue);
    } else {
      FlattenEmpty(m.frequency, Width(m), Height(m));
    }
  }
}
