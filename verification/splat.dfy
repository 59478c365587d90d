/** The two ways a point is spread over the grid: `FrequencyMap.addPoint`
    stamps the cached disc mask centred at the point (the local path), and the
    mapper of the MapReduce path increments a clamped square around it
    (`PlotHeatMapMap.map`). Coordinates are Java ints, so the pixel
    arithmetic wraps around. */
module Splat {
  import opened JavaInt
  import opened Results
  import opened Circles
  import opened FrequencyMaps

  /** The stencil coordinate that lands on grid coordinate `p`: Java computes
      `p = i - radius + c` in int, so i ≡ p - c + radius (mod 2^32). */
  function MaskOffset(p: int, c: int32, radius: int32): nat
  {
    (p - c as int + radius as int) % MODULUS
  }

  /** Whether `addPoint(cx, cy, radius)` increments cell (x, y): the stencil
      pixel that lands on it exists and is filled. */
  predicate Stamped(cx: int32, cy: int32, radius: int32, x: int, y: int)
  {
    var side := Side(radius) as int;
    var i, j := MaskOffset(x, cx, radius), MaskOffset(y, cy, radius);
    i < side && j < side && InDisc(side, i, j)
  }

  /** Stencil pixel i lands on the grid coordinate whose offset is i ... */
  lemma OffsetOfLanding(i: nat, c: int32, radius: int32)
    requires i <= MAX
    ensures MaskOffset(Wrap(i - radius as int + c as int) as int, c, radius) == i
  {
    var t := i - radius as int + c as int;
    var k := (Wrap(t) as int - t) / MODULUS;
    assert Wrap(t) as int == t + k * MODULUS;
    ModUnique(Wrap(t) as int - c as int + radius as int, k, i);
  }

  /** ... and it is the only non-negative int with that offset. */
  lemma LandingUnique(p: int, i: nat, c: int32, radius: int32)
    requires 0 <= p <= MAX && i <= MAX
    requires MaskOffset(p, c, radius) == i
    ensures p == Wrap(i - radius as int + c as int) as int
  {
    var q := (p - c as int + radius as int) / MODULUS;
    assert p == i - radius as int + c as int + q * MODULUS;
    WrapCongruent(p, i - radius as int + c as int, q);
  }

  lemma Landing(i: nat, c: int32, radius: int32)
    requires i <= MAX
    ensures forall p | 0 <= p <= MAX :: MaskOffset(p, c, radius) == i <==> p == Wrap(i - radius as int + c as int) as int
  {
    OffsetOfLanding(i, c, radius);
    forall p | 0 <= p <= MAX && MaskOffset(p, c, radius) == i
      ensures p == Wrap(i - radius as int + c as int) as int
    {
      LandingUnique(p, i, c, radius);
    }
  }

  /** Cell (x, y) as the loops over stencil pixel (i, j) leave it: incremented
      once if it is stamped by a pixel already visited (column-major order). */
  ghost predicate StampedSoFar(m: FrequencyMap, f: Grid, cx: int32, cy: int32, radius: int32, i: nat, j: nat)
    requires IsGrid(f, Width(m), Height(m)) && Valid(m)
  {
    forall x, y | 0 <= x < Width(m) && 0 <= y < Height(m) ::
      f[x][y] == (if Stamped(cx, cy, radius, x, y)
                     && (MaskOffset(x, cx, radius) < i || (MaskOffset(x, cx, radius) == i && MaskOffset(y, cy, radius) < j))
                  then Add(m.frequency[x][y], 1) else m.frequency[x][y])
  }

  /** `addPoint(cx, cy, radius)`. The stencil image cannot be created when
      `radius * 2` is not positive in Java int, or when its square is too many
      pixels for a Java array. Otherwise exactly the stamped
      cells inside the grid are incremented, each once, and every other cell
      keeps its value; the mask is cached under `radius`. */
  method AddPoint(m: FrequencyMap, cx: int32, cy: int32, radius: int32) returns (r: Result<FrequencyMap>)
    requires Valid(m)
    ensures r.Err? <==> !StencilFits(radius)
    ensures r.Err? ==> r.error == (if Side(radius) <= 0 then IllegalArgument else RasterTooLarge)
    ensures r.Ok? ==> Valid(r.value) && Width(r.value) == Width(m) && Height(r.value) == Height(m)
    ensures r.Ok? ==> radius in r.value.circles && m.circles.Keys <= r.value.circles.Keys
    ensures r.Ok? ==> forall x, y | 0 <= x < Width(m) && 0 <= y < Height(m) ::
                        r.value.frequency[x][y] == (if Stamped(cx, cy, radius, x, y) then Add(m.frequency[x][y], 1) else m.frequency[x][y])
  {
    var c := GetCircle(m.circles, radius);
    if c.Err? {
      return Err(c.error);
    }
    var circle, cache := c.value.0, c.value.1;
    var side := |circle|;
    var w, h := Width(m), Height(m);
    var f := m.frequency;
    for i := 0 to side
      invariant IsGrid(f, w, h)
      invariant StampedSoFar(m, f, cx, cy, radius, i, 0)
    {
      for j := 0 to side
        invariant IsGrid(f, w, h)
        invariant StampedSoFar(m, f, cx, cy, radius, i, j)
      {
        // `x - radius + cx`: two wrapping int operations, one residue mod 2^32
        var imgx := Wrap(i - radius as int + cx as int);
        var imgy := Wrap(j - radius as int + cy as int);
        ghost var before := f;
        f := Visit(f, w, h, imgx as int, imgy as int, circle[i][j]);
        StampStep(m, before, cx, cy, radius, i, j);
      }
    }
    return Ok(FrequencyMap(f, cache));
  }

  /** One visit of `addPoint`'s inner loop: the cell (x, y) is incremented when it is
      inside the grid and the stencil pixel is filled. */
  function Visit(f: Grid, w: nat, h: nat, x: int, y: int, filled: bool): (g: Grid)
    requires IsGrid(f, w, h)
    ensures IsGrid(g, w, h)
    ensures forall a, b | 0 <= a < w && 0 <= b < h ::
              g[a][b] == (if a == x && b == y && filled then Add(f[a][b], 1) else f[a][b])
  {
    if 0 <= x < w && 0 <= y < h && filled then f[x := f[x][y := Add(f[x][y], 1)]] else f
  }

  /** Visiting stencil pixel (i, j) increments the one grid cell it lands on,
      if that cell is inside the grid and the pixel is filled. */
  lemma StampStep(m: FrequencyMap, f: Grid, cx: int32, cy: int32, radius: int32, i: nat, j: nat)
    requires Valid(m) && IsGrid(f, Width(m), Height(m))
    requires i < Side(radius) as int && j < Side(radius) as int
    requires StampedSoFar(m, f, cx, cy, radius, i, j)
    ensures StampedSoFar(m, Visit(f, Width(m), Height(m), Wrap(i - radius as int + cx as int) as int,
                                  Wrap(j - radius as int + cy as int) as int, InDisc(Side(radius) as int, i, j)),
                         cx, cy, radius, i, j + 1)
  {
    Landing(i, cx, radius);
    Landing(j, cy, radius);
  }

  /** For a radius whose stencil is the usual 2r×2r square, and a centre whose
      left and top stencil edges do not underflow, a grid cell is stamped
      exactly when it lies in [cx - r, cx + r) × [cy - r, cy + r) and its mask
      bit is set. */
  lemma StampedFootprint(cx: int32, cy: int32, radius: int32, x: int, y: int)
    requires 0 < radius < 0x4000_0000
    requires MIN <= cx as int - radius as int && MIN <= cy as int - radius as int
    requires 0 <= x <= MAX && 0 <= y <= MAX
    ensures Stamped(cx, cy, radius, x, y) <==>
              && cx as int - radius as int <= x < cx as int + radius as int
              && cy as int - radius as int <= y < cy as int + radius as int
              && InDisc(2 * radius as int, x - cx as int + radius as int, y - cy as int + radius as int)
  {
    SidePositive(radius);
    assert Side(radius) as int == 2 * radius as int;
    OffsetInWindow(x, cx, radius);
    OffsetInWindow(y, cy, radius);
  }

  lemma OffsetInWindow(p: int, c: int32, radius: int32)
    requires 0 < radius < 0x4000_0000
    requires MIN <= c as int - radius as int
    requires 0 <= p <= MAX
    ensures MaskOffset(p, c, radius) < 2 * radius as int <==> c as int - radius as int <= p < c as int + radius as int
    ensures MaskOffset(p, c, radius) < 2 * radius as int ==> MaskOffset(p, c, radius) == p - c as int + radius as int
  {
    var d := p - c as int + radius as int;
    if d < 0 {
      ModUnique(d, -1, d + MODULUS);
    } else if d < MODULUS {
      ModUnique(d, 0, d);
    }
  }

  /** `Math.max(0, c - radius)`: first cell of the mapper's square. */
  function BoxLow(c: int32, radius: int32): int
  {
    var lo := Wrap(c as int - radius as int) as int;
    if lo < 0 then 0 else lo
  }

  /** `Math.min(limit, c + radius)`: one past the last cell of the square. */
  function BoxHigh(c: int32, radius: int32, limit: int32): int
  {
    var hi := Wrap(c as int + radius as int) as int;
    if limit as int < hi then limit as int else hi
  }

  /** Neither `c - radius` nor `c + radius` overflows a Java int. */
  predicate InRange(c: int32, radius: int32)
  {
    MIN <= c as int - radius as int <= MAX && MIN <= c as int + radius as int <= MAX
  }

  /** Whether the mapper's square splat increments cell (x, y). */
  predicate InBox(cx: int32, cy: int32, radius: int32, width: int32, height: int32, x: int, y: int)
  {
    BoxLow(cx, radius) <= x < BoxHigh(cx, radius, width) && BoxLow(cy, radius) <= y < BoxHigh(cy, radius, height)
  }

  /** The splat of one shape centre in `PlotHeatMapMap.map`: every cell of the
      square [cx - r, cx + r) × [cy - r, cy + r), clamped to the image, is
      incremented once; all other cells keep their value, so a square that
      misses the image changes nothing. Without overflow of cx ± r and
      cy ± r the clamped bounds are the mathematical ones. */
  method BoxSplat(m: FrequencyMap, imageWidth: int32, imageHeight: int32, cx: int32, cy: int32, radius: int32)
    returns (r: FrequencyMap)
    requires Valid(m) && 0 <= imageWidth && 0 <= imageHeight
    requires Width(m) == imageWidth as int && (imageWidth > 0 ==> Height(m) == imageHeight as int)
    ensures Valid(r) && r.circles == m.circles && Width(r) == Width(m) && Height(r) == Height(m)
    ensures forall x, y | 0 <= x < Width(m) && 0 <= y < Height(m) ::
              r.frequency[x][y] == (if InBox(cx, cy, radius, imageWidth, imageHeight, x, y) then Add(m.frequency[x][y], 1) else m.frequency[x][y])
    ensures InRange(cx, radius) && InRange(cy, radius) ==>
              forall x, y | 0 <= x < Width(m) && 0 <= y < Height(m) ::
                (r.frequency[x][y] != m.frequency[x][y] <==>
                   && (if 0 < cx as int - radius as int then cx as int - radius as int else 0) <= x < cx as int + radius as int
                   && (if 0 < cy as int - radius as int then cy as int - radius as int else 0) <= y < cy as int + radius as int)
    ensures BoxLow(cx, radius) >= BoxHigh(cx, radius, imageWidth) || BoxLow(cy, radius) >= BoxHigh(cy, radius, imageHeight) ==> r == m
  {
    var x1, y1 := BoxLow(cx, radius), BoxLow(cy, radius);
    var x2, y2 := BoxHigh(cx, radius, imageWidth), BoxHigh(cy, radius, imageHeight);
    var w, h := Width(m), Height(m);
    var f := m.frequency;
    var x := x1;
    while x < x2
      invariant IsGrid(f, w, h)
      invariant x1 <= x && (x1 < x ==> x <= x2)
      invariant forall x', y | 0 <= x' < w && 0 <= y < h ::
                  f[x'][y] == (if x1 <= x' < x && y1 <= y < y2 then Add(m.frequency[x'][y], 1) else m.frequency[x'][y])
    {
      var y := y1;
      while y < y2
        invariant IsGrid(f, w, h)
        invariant y1 <= y && (y1 < y ==> y <= y2)
        invariant forall x', y' | 0 <= x' < w && 0 <= y' < h ::
                    f[x'][y'] == (if (x1 <= x' < x && y1 <= y' < y2) || (x' == x && y1 <= y' < y) then Add(m.frequency[x'][y'], 1) else m.frequency[x'][y'])
      {
        f := f[x := f[x][y := Add(f[x][y], 1)]];
        y := y + 1;
      }
      assert y1 < y2 ==> y == y2;
      x := x + 1;
    }
    r := FrequencyMap(f, m.circles);
    if x1 >= x2 || y1 >= y2 {
      SameCells(f, m.frequency, w, h);
    }
    if InRange(cx, radius) && InRange(cy, radius) {
      AddOneChanges(m, r, cx, cy, radius, imageWidth, imageHeight);
    }
  }

  lemma SameCells(f: Grid, g: Grid, w: nat, h: nat)
    requires IsGrid(f, w, h) && IsGrid(g, w, h)
    requires forall x, y | 0 <= x < w && 0 <= y < h :: f[x][y] == g[x][y]
    ensures f == g
  {
    forall x | 0 <= x < w
      ensures f[x] == g[x]
    {
      assert forall y | 0 <= y < h :: f[x][y] == g[x][y];
    }
  }

  lemma AddOneChanges(m: FrequencyMap, r: FrequencyMap, cx: int32, cy: int32, radius: int32, imageWidth: int32, imageHeight: int32)
    requires IsGrid(r.frequency, Width(m), Height(m)) && Valid(m)
    requires forall x, y | 0 <= x < Width(m) && 0 <= y < Height(m) ::
               r.frequency[x][y] == (if InBox(cx, cy, radius, imageWidth, imageHeight, x, y) then Add(m.frequency[x][y], 1) else m.frequency[x][y])
    requires InRange(cx, radius) && InRange(cy, radius)
    requires Width(m) <= imageWidth as int && Height(m) <= imageHeight as int
    ensures forall x, y | 0 <= x < Width(m) && 0 <= y < Height(m) ::
              (r.frequency[x][y] != m.frequency[x][y] <==>
                 && (if 0 < cx as int - radius as int then cx as int - radius as int else 0) <= x < cx as int + radius as int
                 && (if 0 < cy as int - radius as int then cy as int - radius as int else 0) <= y < cy as int + radius as int)
  {
    assert Wrap(cx as int - radius as int) as int == cx as int - radius as int;
    assert Wrap(cx as int + radius as int) as int == cx as int + radius as int;
    assert Wrap(cy as int - radius as int) as int == cy as int - radius as int;
    assert Wrap(cy as int + radius as int) as int == cy as int + radius as int;
    forall x, y | 0 <= x < Width(m) && 0 <= y < Height(m)
      ensures r.frequency[x][y] != m.frequency[x][y] <==> InBox(cx, cy, radius, imageWidth, imageHeight, x, y)
    {
      AddOneDiffers(m.frequency[x][y]);
    }
  }

  /** Java's `++` always changes an int (MAX_VALUE wraps to MIN_VALUE). */
  lemma AddOneDiffers(v: int32)
    ensures Add(v, 1) != v
  {
  }

  /** Both splats agree on where a point can reach: every cell the disc stamps
      lies in the mapper's clamped square, when the stencil is the usual
      2r×2r square and the centre's edges do not overflow. */
  lemma DiscWithinBox(cx: int32, cy: int32, radius: int32, width: int32, height: int32, x: int, y: int)
    requires 0 < radius < 0x4000_0000
    requires InRange(cx, radius) && InRange(cy, radius)
    requires 0 <= x < width as int && 0 <= y < height as int
    ensures Stamped(cx, cy, radius, x, y) ==> InBox(cx, cy, radius, width, height, x, y)
  {
    StampedFootprint(cx, cy, radius, x, y);
  }
}
