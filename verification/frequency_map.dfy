/** `PlotHeatMap.FrequencyMap`: a width×height grid of Java int counters,
    indexed frequency[x][y] (an array of columns), together with its cache of
    disc masks. Java mutates the map in place; here every operation takes the
    map as a value and returns the new one, so an argument is never modified. */
module FrequencyMaps {
  import opened JavaInt
  import opened Results
  import opened Circles

  /** frequency[x][y]: the counter of pixel column x, row y. */
  type Grid = seq<seq<int32>>

  datatype FrequencyMap = FrequencyMap(frequency: Grid, circles: Cache)

  /** `f` has `w` columns of `h` cells each. */
  predicate IsGrid<T>(f: seq<seq<T>>, w: nat, h: nat)
  {
    |f| == w && forall x | 0 <= x < w :: |f[x]| == h
  }

  /** `frequency.length` */
  function Width(m: FrequencyMap): nat
  {
    |m.frequency|
  }

  /** `frequency[0].length`. Java throws on a width-0 map; the operations that
      read the height test the width first and fail there. */
  function Height(m: FrequencyMap): nat
  {
    if |m.frequency| == 0 then 0 else |m.frequency[0]|
  }

  /** What every map built by `new int[w][h]` satisfies: rectangular, with
      dimensions that are Java array lengths, and a cache of genuine discs. */
  predicate Valid(m: FrequencyMap)
  {
    && IsGrid(m.frequency, Width(m), Height(m))
    && Width(m) <= MAX
    && Height(m) <= MAX
    && CacheValid(m.circles)
  }

  /** Two maps `combine` accepts: same width, same height, and a width that
      lets `getHeight` read column 0. */
  predicate Combinable(a: FrequencyMap, b: FrequencyMap)
  {
    Width(a) == Width(b) && Width(a) > 0 && Height(a) == Height(b)
  }

  function Zeros(w: nat, h: nat): (f: Grid)
    ensures IsGrid(f, w, h)
  {
    seq(w, _ => seq(h, _ => 0))
  }

  /** `new FrequencyMap(width, height)`: an all-zero grid. Java checks both
      dimensions for negativity and no more: a width-0 map is accepted (and
      keeps no record of its height). */
  function New(w: int32, h: int32): (r: Result<FrequencyMap>)
    ensures r.Err? <==> w < 0 || h < 0
    ensures r.Err? ==> r.error == NegativeArraySize
    ensures r.Ok? ==> Valid(r.value) && r.value.circles == map[]
    ensures r.Ok? ==> Width(r.value) == w as int && (w > 0 ==> Height(r.value) == h as int)
    ensures r.Ok? ==> forall x, y | 0 <= x < w as int && 0 <= y < h as int :: r.value.frequency[x][y] == 0
  {
    if w < 0 || h < 0 then Err(NegativeArraySize)
    else Ok(FrequencyMap(Zeros(w as nat, h as nat), map[]))
  }

  /** `clone()`, i.e. the copy constructor: a fresh grid of the same size,
      filled cell by cell, and a fresh empty mask cache. */
  method Clone(m: FrequencyMap) returns (r: Result<FrequencyMap>)
    requires Valid(m)
    ensures r.Err? <==> Width(m) == 0
    ensures r.Err? ==> r.error == ArrayIndexOutOfBounds
    ensures r.Ok? ==> Valid(r.value) && r.value.frequency == m.frequency && r.value.circles == map[]
  {
    if |m.frequency| == 0 {
      return Err(ArrayIndexOutOfBounds);
    }
    var w, h := Width(m), Height(m);
    var f := Zeros(w, h);
    for x := 0 to w
      invariant IsGrid(f, w, h)
      invariant forall x' | 0 <= x' < x :: f[x'] == m.frequency[x']
    {
      for y := 0 to h
        invariant IsGrid(f, w, h)
        invariant forall x' | 0 <= x' < x :: f[x'] == m.frequency[x']
        invariant forall y' | 0 <= y' < y :: f[x][y'] == m.frequency[x][y']
      {
        f := f[x := f[x][y := m.frequency[x][y]]];
      }
      assert f[x] == m.frequency[x];
    }
    return Ok(FrequencyMap(f, map[]));
  }

  /** `combine(other)`: adds `other` into this map cell by cell (with Java's
      wrap-around). Maps of different sizes are rejected before any cell
      changes. Whenever either map has width 0 the failure is the one of
      `getHeight` reading column 0: two width-0 maps fail in the height
      comparison, and a width-0 map of another width fails while the
      exception message renders it with `toString`. */
  method Combine(m: FrequencyMap, other: FrequencyMap) returns (r: Result<FrequencyMap>)
    requires Valid(m) && Valid(other)
    ensures r.Err? <==> !Combinable(m, other)
    ensures r.Err? ==> r.error == (if Width(m) == 0 || Width(other) == 0 then ArrayIndexOutOfBounds else IncompatibleSizes)
    ensures r.Ok? ==> Valid(r.value) && r.value.circles == m.circles
    ensures r.Ok? ==> Width(r.value) == Width(m) && Height(r.value) == Height(m)
    ensures r.Ok? ==> forall x, y | 0 <= x < Width(m) && 0 <= y < Height(m) ::
                        r.value.frequency[x][y] == Add(m.frequency[x][y], other.frequency[x][y])
  {
    if Width(other) != Width(m) {
      // the message `"..." + this + ", " + other` calls `getHeight` on both
      if Width(m) == 0 || Width(other) == 0 {
        return Err(ArrayIndexOutOfBounds);
      }
      return Err(IncompatibleSizes);
    }
    if Width(m) == 0 {
      return Err(ArrayIndexOutOfBounds);
    }
    if Height(other) != Height(m) {
      return Err(IncompatibleSizes);
    }
    var w, h := Width(m), Height(m);
    var f := m.frequency;
    for x := 0 to w
      invariant IsGrid(f, w, h)
      invariant forall x', y | 0 <= x' < x && 0 <= y < h ::
                  f[x'][y] == Add(m.frequency[x'][y], other.frequency[x'][y])
      invariant forall x' | x <= x' < w :: f[x'] == m.frequency[x']
    {
      for y := 0 to h
        invariant IsGrid(f, w, h)
        invariant forall x', y' | 0 <= x' < x && 0 <= y' < h ::
                    f[x'][y'] == Add(m.frequency[x'][y'], other.frequency[x'][y'])
        invariant forall y' | 0 <= y' < y :: f[x][y'] == Add(m.frequency[x][y'], other.frequency[x][y'])
        invariant forall y' | y <= y' < h :: f[x][y'] == m.frequency[x][y']
        invariant forall x' | x < x' < w :: f[x'] == m.frequency[x']
      {
        f := f[x := f[x][y := Add(f[x][y], other.frequency[x][y])]];
      }
    }
    return Ok(FrequencyMap(f, m.circles));
  }

  /** The cells in the order `for (int[] col : frequency) for (int value : col)`
      visits them: column after column. */
  function Flatten(f: Grid): seq<int32>
  {
    if |f| == 0 then [] else f[0] + Flatten(f[1..])
  }

  lemma {:induction false} FlattenAppend(a: Grid, b: Grid)
    ensures Flatten(a + b) == Flatten(a) + Flatten(b)
  {
    if |a| == 0 {
      assert a + b == b;
    } else {
      assert (a + b)[1..] == a[1..] + b;
      FlattenAppend(a[1..], b);
    }
  }

  lemma {:induction false} FlattenLength(f: Grid, w: nat, h: nat)
    requires IsGrid(f, w, h)
    ensures |Flatten(f)| == w * h
  {
    if w > 0 {
      FlattenLength(f[1..], w - 1, h);
      assert w * h == h + (w - 1) * h;
    }
  }

  lemma {:induction false} FlattenEmpty(f: Grid, w: nat, h: nat)
    requires IsGrid(f, w, h) && (w == 0 || h == 0)
    ensures Flatten(f) == []
  {
    if w > 0 {
      FlattenEmpty(f[1..], w - 1, h);
    }
  }

  lemma {:induction false} FlattenAt(f: Grid, w: nat, h: nat, x: nat, y: nat)
    requires IsGrid(f, w, h) && x < w && y < h
    ensures x * h + y < |Flatten(f)| && Flatten(f)[x * h + y] == f[x][y]
  {
    FlattenLength(f[1..], w - 1, h);
    if x > 0 {
      FlattenAt(f[1..], w - 1, h, x - 1, y);
      assert x * h + y == h + ((x - 1) * h + y);
    }
  }

  /** A value occurs among the flattened cells exactly when some cell holds it. */
  lemma {:induction false} FlattenValues(f: Grid, w: nat, h: nat, v: int32)
    requires IsGrid(f, w, h)
    ensures v in multiset(Flatten(f)) <==> exists x, y | 0 <= x < w && 0 <= y < h :: f[x][y] == v
  {
    if w > 0 {
      FlattenValues(f[1..], w - 1, h, v);
      assert multiset(Flatten(f)) == multiset(f[0]) + multiset(Flatten(f[1..]));
      if v in multiset(f[0]) {
        var y :| 0 <= y < h && f[0][y] == v;
        assert f[0][y] == v;
      } else if v in multiset(Flatten(f[1..])) {
        var x, y :| 0 <= x < w - 1 && 0 <= y < h && f[1..][x][y] == v;
        assert f[x + 1][y] == v;
      }
      if exists x, y | 0 <= x < w && 0 <= y < h :: f[x][y] == v {
        var x, y :| 0 <= x < w && 0 <= y < h && f[x][y] == v;
        if x == 0 {
          assert f[0][y] in multiset(f[0]);
        } else {
          assert f[1..][x - 1][y] == v;
        }
      }
    }
  }
}
