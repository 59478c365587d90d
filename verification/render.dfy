/** `FrequencyMap.toImage`: which pixels of the heat-map image get painted,
    and against which value range their colour is computed. The colour itself
    (`NASARectangle.calculateColor`) is outside this model: a painted pixel
    records the cell value it is coloured from, and the image records the
    range that the colour function reads. */
module Render {
  import opened JavaInt
  import opened Results
  import opened FrequencyMaps
  import opened ValueRanges

  /** A pixel of the ARGB image: left at 0 (transparent) or set to the colour
      of a cell value. */
  datatype Pixel = Transparent | Painted(value: int32)

  /** pixels[x][y], and the range (`NASAPoint.minValue/maxValue`) in effect
      while the colours were computed. */
  datatype Image = Image(range: MinMax, pixels: seq<seq<Pixel>>)

  /** Whether `toImage` paints a cell holding `value`. */
  predicate Paints(skipZeros: bool, value: int32)
  {
    !skipZeros || value > 0
  }

  /** `toImage(valueRange, skipZeros)`. A given range is used as it is; only a
      missing one is derived from the cells. The image has the map's size; the
      image cannot be created for a width-0 map (`getHeight` fails), a
      height-0 map (AWT refuses an empty raster) or a map of more cells than
      a Java array holds (the raster keeps one `int` per pixel). Pixel (x, y) is painted from
      cell (x, y) exactly when zeros are not skipped or the cell is positive. */
  method ToImage(m: FrequencyMap, valueRange: Option<MinMax>, skipZeros: bool) returns (r: Result<Image>)
    requires Valid(m)
    ensures r.Err? <==> Width(m) == 0 || Height(m) == 0 || !ArrayFits(Width(m) * Height(m))
    ensures r.Err? ==> r.error == (if Width(m) == 0 then ArrayIndexOutOfBounds
                                   else if Height(m) == 0 then IllegalArgument else RasterTooLarge)
    ensures r.Ok? ==> IsGrid(r.value.pixels, Width(m), Height(m))
    ensures r.Ok? && valueRange.Some? ==> r.value.range == valueRange.value
    ensures r.Ok? && valueRange.None? ==> IsTightRange(m.frequency, Width(m), Height(m), r.value.range)
    ensures r.Ok? ==> forall x, y | 0 <= x < Width(m) && 0 <= y < Height(m) ::
                        (r.value.pixels[x][y].Painted? <==> Paints(skipZeros, m.frequency[x][y]))
    ensures r.Ok? ==> forall x, y | 0 <= x < Width(m) && 0 <= y < Height(m) ::
                        r.value.pixels[x][y].Painted? ==> r.value.pixels[x][y].value == m.frequency[x][y]
  {
    var range: MinMax;
    if valueRange.None? {
      var histogram;
      range, histogram := GetValueRange(m);
    } else {
      range := valueRange.value;
    }
    if Width(m) == 0 {
      return Err(ArrayIndexOutOfBounds);
    }
    if Height(m) == 0 {
      return Err(IllegalArgument);
    }
    if !ArrayFits(Width(m) * Height(m)) {
      return Err(RasterTooLarge);
    }
    var w, h := Width(m), Height(m);
    var pixels: seq<seq<Pixel>> := seq(w, _ => seq(h, _ => Transparent));
    for x := 0 to w
      invariant IsGrid(pixels, w, h)
      invariant forall x', y | 0 <= x' < x && 0 <= y < h ::
                  pixels[x'][y] == (if Paints(skipZeros, m.frequency[x'][y]) then Painted(m.frequency[x'][y]) else Transparent)
      invariant forall x', y | x <= x' < w && 0 <= y < h :: pixels[x'][y] == Transparent
    {
      for y := 0 to h
        invariant IsGrid(pixels, w, h)
        invariant forall x', y' | 0 <= x' < x && 0 <= y' < h ::
                    pixels[x'][y'] == (if Paints(skipZeros, m.frequency[x'][y']) then Painted(m.frequency[x'][y']) else Transparent)
        invariant forall y' | 0 <= y' < y ::
                    pixels[x][y'] == (if Paints(skipZeros, m.frequency[x][y']) then Painted(m.frequency[x][y']) else Transparent)
        invariant forall y' | y <= y' < h :: pixels[x][y'] == Transparent
        invariant forall x', y' | x < x' < w && 0 <= y' < h :: pixels[x'][y'] == Transparent
      {
        if Paints(skipZeros, m.frequency[x][y]) {
          pixels := pixels[x := pixels[x][y := Painted(m.frequency[x][y])]];
        }
      }
    }
    return Ok(Image(range, pixels));
  }
}
