/** The disc masks `addPoint` stamps onto the grid, and the per-radius cache
    that builds each mask once (`FrequencyMap.getCircle`). */
module Circles {
  import opened JavaInt
  import opened Results

  /** mask[i][j]: whether pixel (i, j) of the square stencil is filled. */
  type Mask = seq<seq<bool>>

  /** Masks cached by the radius they were requested for. */
  type Cache = map<int32, Mask>

  /** Stand-in for the pixels that AWT's `fillArc(0, 0, d, d, 0, 360)` fills in
      a d×d image: pixel (i, j) is filled when its centre lies in the disc
      inscribed in the square. Every contract about splatting is stated in
      terms of mask bits, so none depends on this particular rule. */
  predicate InDisc(d: int, i: int, j: int)
  {
    var dx := 2 * i + 1 - d;
    var dy := 2 * j + 1 - d;
    dx * dx + dy * dy <= d * d
  }

  /** The d×d stencil of a filled disc. */
  function DiscMask(d: nat): Mask
  {
    seq(d, i => seq(d, j => InDisc(d, i, j)))
  }

  /** Side length of the stencil image, `radius * 2` computed in Java int. */
  function Side(radius: int32): int32
  {
    Wrap(2 * radius as int)
  }

  /** The largest side whose square, the pixel count of a side×side image,
      fits in one Java array (see `SquareFits`). */
  const MAX_SIDE: int := 46340

  /** The side×side stencil image can be created: AWT needs a positive side,
      and its side² pixels must fit in one Java `int[]`. */
  predicate StencilFits(radius: int32)
  {
    0 < Side(radius) as int <= MAX_SIDE
  }

  /** Every cached mask is the disc of its radius, and only radii whose
      stencil image could be created are cached. */
  predicate CacheValid(c: Cache)
  {
    forall k | k in c :: StencilFits(k) && c[k] == DiscMask(Side(k) as nat)
  }

  /** The stencil side `radius * 2` is positive exactly for radii in
      (0, 2^30), and, by wrap-around, for radii in (-2^31, -2^30). */
  lemma SidePositive(radius: int32)
    ensures Side(radius) > 0 <==> 0 < radius < 0x4000_0000 || -0x8000_0000 < radius < -0x4000_0000
  {
    var t := 2 * radius as int;
    if 0 < radius < 0x4000_0000 {
      assert Side(radius) as int == t;
    } else if -0x8000_0000 < radius < -0x4000_0000 {
      assert Wrap(t + MODULUS) as int == t + MODULUS;
      WrapCongruent(t, t + MODULUS, -1);
    } else if radius >= 0x4000_0000 {
      assert Wrap(t - MODULUS) as int == t - MODULUS;
      WrapCongruent(t, t - MODULUS, 1);
    } else if radius == -0x8000_0000 {
      assert Wrap(t + MODULUS) as int == 0;
      WrapCongruent(t, t + MODULUS, -1);
    } else {
      assert Side(radius) as int == t;
    }
  }

  /** The radii whose stencil can be created: those whose side is positive
      and has a square that fits in a Java array, namely side 2r up to 46340,
      reached directly for r in [1, 23170] and, through the wrap-around of
      `radius * 2`, for r in [-2^31 + 1, -2^31 + 23170]. */
  lemma StencilFitsExactly(radius: int32)
    ensures StencilFits(radius) <==> Side(radius) > 0 && ArrayFits(Side(radius) as int * Side(radius) as int)
    ensures StencilFits(radius) <==>
              (0 < radius <= 23170 || -0x8000_0000 < radius <= -0x8000_0000 + 23170)
  {
    SidePositive(radius);
    var s := Side(radius) as int;
    if s > 0 {
      SquareFits(s);
    }
    if 0 < radius < 0x4000_0000 {
      assert s == 2 * radius as int;
    } else if -0x8000_0000 < radius < -0x4000_0000 {
      assert Wrap(2 * radius as int + MODULUS) as int == 2 * radius as int + MODULUS;
      WrapCongruent(2 * radius as int, 2 * radius as int + MODULUS, -1);
    }
  }

  /** A positive side's square fits in a Java array exactly up to MAX_SIDE. */
  lemma SquareFits(s: int)
    requires s > 0
    ensures ArrayFits(s * s) <==> s <= MAX_SIDE
  {
    if s <= MAX_SIDE {
      MulMonotone(s, MAX_SIDE, s);
      MulMonotone(s, MAX_SIDE, MAX_SIDE);
    } else {
      MulMonotone(MAX_SIDE + 1, s, s);
      MulMonotone(MAX_SIDE + 1, s, MAX_SIDE + 1);
    }
  }

  lemma MulMonotone(a: int, b: int, c: int)
    requires 0 <= a <= b && 0 <= c
    ensures a * c <= b * c
  {
  }

  /** `getCircle(radius)`: the cached mask if there is one, otherwise a freshly
      drawn disc that is stored under `radius`. Creating the stencil image
      fails for a non-positive side and for a side whose square exceeds the
      capacity of a Java array. */
  function GetCircle(c: Cache, radius: int32): (r: Result<(Mask, Cache)>)
    requires CacheValid(c)
    ensures r.Err? <==> !StencilFits(radius)
    ensures r.Err? ==> r.error == (if Side(radius) <= 0 then IllegalArgument else RasterTooLarge)
    ensures r.Ok? ==> r.value.0 == DiscMask(Side(radius) as nat)
    ensures r.Ok? ==> CacheValid(r.value.1) && radius in r.value.1
    ensures r.Ok? ==> r.value.1.Keys == c.Keys + {radius}
    ensures r.Ok? ==> forall k | k in c :: r.value.1[k] == c[k]
  {
    if radius in c then
      Ok((c[radius], c))
    else if Side(radius) <= 0 then
      Err(IllegalArgument)
    else if Side(radius) as int > MAX_SIDE then
      Err(RasterTooLarge)
    else
      var circle := DiscMask(Side(radius) as nat);
      Ok((circle, c[radius := circle]))
  }

  /** Once a radius has been drawn, asking again reuses the cached mask and
      leaves the cache as it is. */
  lemma GetCircleReuses(c: Cache, radius: int32)
    requires CacheValid(c)
    requires GetCircle(c, radius).Ok?
    ensures var c' := GetCircle(c, radius).value.1;
            GetCircle(c', radius) == Ok((GetCircle(c, radius).value.0, c'))
  {
  }
}
