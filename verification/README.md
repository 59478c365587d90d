# Heat-map grid engine of SpatialHadoop's `PlotHeatMap`

This project models the grid-aggregation core of `PlotHeatMap.java` and proves
properties of it. The core covers the following:

- the `FrequencyMap`: a width×height grid of Java `int` counters indexed
  `frequency[x][y]`, with its cache of disc masks;
- the map's constructor and copy constructor (`clone`), and the cell-wise `combine`;
- its Hadoop `Writable` encoding (`write` / `readFields`);
- the min/max and histogram scan (`getValueRange`);
- the paint decision of `toImage`;
- the disc splat `addPoint` and the mask cache `getCircle`;
- the square splat of the mapper and the reducer's clone-then-combine fold;
- the `valuerange` option parser;
- the even-height step `height &= 0xfffffffe` of the aspect-ratio fitting;
- the choice between a local plot and a MapReduce job.

Java `int` arithmetic is modelled exactly. `+=` and `++` wrap modulo 2^32
(`JavaInt.Add`), and so do the pixel offsets of `addPoint`, the box bounds
of the mapper and the `Integer` counts of the value histogram. Java mutates
the map in place. Here every operation takes the map as a value and returns
a new one, so an argument never changes. Each Java exception on a modelled path is an `Err` named after it (`Results.Error`).
The one error not named after an exception is `RasterTooLarge`. It stands for
an AWT image of more than 2^31 − 1 pixels. Such an image needs a single `int[]`
of that many entries, and no Java array can hold it. Which exception the JDK's
raster code then raises depends on code that is not part of this model.
The exceptions include:

- `frequency[0]` on a width-0 map;
- a negative array size;
- an AWT image of non-positive size;
- an AWT image of more pixels than a Java array holds (a stencil side of 46342 or more, or a map of more than 2^31 − 1 cells);
- maps of different sizes (the failure of `frequency[0]` when either has width 0, since the exception message renders both maps with `toString`);
- end of stream;
- a malformed number.

The encoding is not a round trip, and the model follows the code.
Hadoop's `Writable` contract asks `readFields` to restore what `write` emitted,
and the reducer receives the mappers' maps only through this encoding. The
code does not meet that contract. `write` emits the cells
column by column, but `readFields` stores them row by row. `Codec.Decode`
models `readFields` as written, and the lemmas show what it does:

- it keeps the dimensions;
- it is the identity on maps one column wide or one row high;
- it transposes square maps;
- for every size of at least 2×2, some map of that size comes back changed
  (a constant map does come back equal).

`Codec.DecodeColumnMajor` is the reader that matches `write`, with the round
trip proved in both directions (see Findings).

The AWT disc that `fillArc` draws into the stencil is replaced by a concrete
rule, `Circles.InDisc`: a pixel is filled when its centre lies in the disc.
Every splat contract is stated in terms of mask bits, so none depends on
this choice.

## Model

| member | source | states |
|---|---|---|
| JavaInt.Add | src/edu/umn/cs/spatialHadoop/operations/PlotHeatMap.java:107 | Java's `+=` on int: the result is congruent to the true sum modulo 2^32, and equals it when the sum fits in an int |
| JavaInt.AddOneWrap | src/edu/umn/cs/spatialHadoop/operations/PlotHeatMap.java:152 | adding 1 in int to a count already wrapped to an int gives the wrapped successor count, so repeated `get(value) + 1` keeps the wrapped number of occurrences |
| FrequencyMaps.New | src/edu/umn/cs/spatialHadoop/operations/PlotHeatMap.java:89-91 | `new int[w][h]` fails exactly when a dimension is negative; otherwise an all-zero w×h grid (a width-0 grid keeps no height) with an empty mask cache |
| FrequencyMaps.Clone | src/edu/umn/cs/spatialHadoop/operations/PlotHeatMap.java:93-99 | the copy has the same cells and dimensions and a fresh empty cache; a width-0 map fails in `getHeight` |
| FrequencyMaps.Combine | src/edu/umn/cs/spatialHadoop/operations/PlotHeatMap.java:101-109 | fails exactly when widths or heights differ or both widths are 0; the failure is that of `getHeight` on a width-0 map whenever either width is 0 (the height comparison, or `toString` in the exception message at line 104), else the size mismatch; otherwise every cell becomes this + other with wrap-around, dimensions and cache unchanged |
| FrequencyMaps.FlattenValues | src/edu/umn/cs/spatialHadoop/operations/PlotHeatMap.java:147-148 | a value occurs in the column-by-column visit order exactly when some cell holds it |
| Codec.Encode | src/edu/umn/cs/spatialHadoop/operations/PlotHeatMap.java:112-120 | `write` emits width, height and then w·h cell values, 2 + w·h ints in all; it fails on a width-0 map |
| Codec.EncodeCell | src/edu/umn/cs/spatialHadoop/operations/PlotHeatMap.java:115-119 | cell (x, y) is the (2 + x·h + y)-th int written (x outer, y inner) |
| Codec.Decode | src/edu/umn/cs/spatialHadoop/operations/PlotHeatMap.java:123-132 | `readFields` fails on a short stream (end of file) or a negative dimension; otherwise a valid map with the stream's width and height and an empty cache |
| Codec.DecodeAt | src/edu/umn/cs/spatialHadoop/operations/PlotHeatMap.java:127-131 | `readFields` stores the (y·w + x)-th cell value of the stream at frequency[x][y], which lies within the w·h values read |
| Codec.DecodeEncodeDimensions | src/edu/umn/cs/spatialHadoop/operations/PlotHeatMap.java:112-132 | decoding an encoding restores width and height |
| Codec.DecodeEncodeCell | src/edu/umn/cs/spatialHadoop/operations/PlotHeatMap.java:127-131 | after decoding, cell (x, y) holds the (y·w + x)-th value written: row-major reading of a column-major stream |
| Codec.DecodeEncodeThin | src/edu/umn/cs/spatialHadoop/operations/PlotHeatMap.java:112-132 | a map one column wide or one row high comes back unchanged |
| Codec.DecodeEncodeSquareTransposes | src/edu/umn/cs/spatialHadoop/operations/PlotHeatMap.java:112-132 | a square map comes back transposed: decoded (x, y) is original (y, x) |
| Codec.DecodeEncodeScrambles | src/edu/umn/cs/spatialHadoop/operations/PlotHeatMap.java:123-132 | for every size of at least 2×2, a map with a single 1 at (1, 0) is not reproduced; the decoded (1, 0) is 0 |
| Codec.DecodeColumnMajor | src/edu/umn/cs/spatialHadoop/operations/PlotHeatMap.java:112-120 | a reader in `write`'s order, with the same failure conditions as `readFields` |
| Codec.DecodeColumnMajorRoundTrip | src/edu/umn/cs/spatialHadoop/operations/PlotHeatMap.java:112-120 | reading back what `write` wrote gives the same grid |
| Codec.EncodeDecodeColumnMajor | src/edu/umn/cs/spatialHadoop/operations/PlotHeatMap.java:112-120 | writing what the matching reader read gives back the stream's prefix it consumed |
| ValueRanges.TallyStep | src/edu/umn/cs/spatialHadoop/operations/PlotHeatMap.java:149-153 | one histogram update keeps the keys exactly the values seen and each count the wrapped number of occurrences, whether the value is new (`put(value, 1)`) or not (`get(value) + 1`) |
| ValueRanges.ScanColumn | src/edu/umn/cs/spatialHadoop/operations/PlotHeatMap.java:148-155 | after the values of one column, the range bounds every value seen and is attained, and the histogram holds exactly the values seen, each with its number of occurrences wrapped to an int as `get(value) + 1` wraps |
| ValueRanges.GetValueRange | src/edu/umn/cs/spatialHadoop/operations/PlotHeatMap.java:144-185 | for a map with cells, min ≤ every cell ≤ max and both are attained; without cells the initial (MAX_VALUE, MIN_VALUE); the histogram's keys are exactly the cell values and each count is that value's multiplicity wrapped to an int, hence exact up to Integer.MAX_VALUE |
| Render.ToImage | src/edu/umn/cs/spatialHadoop/operations/PlotHeatMap.java:195-210 | a given range is used verbatim and only a missing one is computed (tight); the image is width×height; pixel (x, y) is painted exactly when zeros are not skipped or the cell is positive, from that cell's value; fails for width 0 or height 0, and for more cells than a Java array holds |
| Circles.SidePositive | src/edu/umn/cs/spatialHadoop/operations/PlotHeatMap.java:231 | `radius * 2` in int is positive exactly for radii in (0, 2^30) and, through wrap-around, (−2^31, −2^30) |
| Circles.GetCircle | src/edu/umn/cs/spatialHadoop/operations/PlotHeatMap.java:228-241 | fails exactly when the stencil side is not positive (an illegal argument) or its square exceeds the capacity of a Java array (raster too large); otherwise the disc mask of that side, cached under the radius, with every other cache entry kept |
| Circles.StencilFitsExactly | src/edu/umn/cs/spatialHadoop/operations/PlotHeatMap.java:231 | a stencil can be created exactly when its side is positive and its side² pixels fit in a Java array, which holds exactly for radii 1 to 23170 and, through the wrap-around of `radius * 2`, for radii −2^31 + 1 to −2^31 + 23170 |
| Circles.GetCircleReuses | src/edu/umn/cs/spatialHadoop/operations/PlotHeatMap.java:229-230 | a second request for a radius returns the cached mask and leaves the cache alone |
| Splat.OffsetOfLanding | src/edu/umn/cs/spatialHadoop/operations/PlotHeatMap.java:216-217 | stencil pixel i lands on the grid coordinate whose offset back into the stencil is i |
| Splat.LandingUnique | src/edu/umn/cs/spatialHadoop/operations/PlotHeatMap.java:216-217 | no other grid coordinate has that offset, so each cell is hit by at most one stencil pixel |
| Splat.AddPoint | src/edu/umn/cs/spatialHadoop/operations/PlotHeatMap.java:212-226 | fails exactly when the stencil cannot be created; otherwise each cell whose stencil pixel exists and is filled increases by 1 and every other cell is unchanged, with the same dimensions and the mask cached |
| Splat.StampedFootprint | src/edu/umn/cs/spatialHadoop/operations/PlotHeatMap.java:212-226 | for 0 < r < 2^30 and centres whose left and top edges do not underflow, a cell is stamped exactly when it lies in [cx−r, cx+r) × [cy−r, cy+r) and its mask bit is set |
| Splat.BoxSplat | src/edu/umn/cs/spatialHadoop/operations/PlotHeatMap.java:296-304 | exactly the cells of [max(0,cx−r), min(W,cx+r)) × [max(0,cy−r), min(H,cy+r)), bounds computed in int, increase by 1 and all others are unchanged; an empty box leaves the map as it was |
| Splat.DiscWithinBox | src/edu/umn/cs/spatialHadoop/operations/PlotHeatMap.java:296-304 | every cell the disc splat stamps also lies in the mapper's square, under the same no-overflow conditions |
| Reduce.SumOf | src/edu/umn/cs/spatialHadoop/operations/PlotHeatMap.java:342-344 | the left-to-right wrapping sum equals the true integer sum, wrapped to an int |
| Reduce.IntSumPermutation | src/edu/umn/cs/spatialHadoop/operations/PlotHeatMap.java:342-344 | the integer sum depends only on the multiset of summands |
| Reduce.SumOfPermutation | src/edu/umn/cs/spatialHadoop/operations/PlotHeatMap.java:342-344 | the wrapping sum depends only on the multiset of summands |
| Reduce.CellValuesPermutation | src/edu/umn/cs/spatialHadoop/operations/PlotHeatMap.java:342-344 | permuting the partial maps permutes the values each cell collects |
| Reduce.CombineAll | src/edu/umn/cs/spatialHadoop/operations/PlotHeatMap.java:340-344 | no partial map gives no map; a width-0 first map fails in `clone`; otherwise the first later map of another size fails, with the failure of `getHeight` if it has width 0 and the size mismatch else; without such a map the result has the first map's size, with every cell the wrapped sum of that cell over all partial maps |
| Reduce.CombineOrderIndependent | src/edu/umn/cs/spatialHadoop/operations/PlotHeatMap.java:340-344 | any permutation of the partial maps is accepted exactly when the original is, and yields the same size and the same cell sums |
| Reduce.ReduceToImage | src/edu/umn/cs/spatialHadoop/operations/PlotHeatMap.java:337-348 | no output for no input; otherwise the image of the folded map: pixel (x, y) is painted from the cell's sum over all partial maps exactly when the paint rule admits it; fails exactly when the fold fails, the height is 0 or the map has more cells than a Java array holds; without a configured range the colour range is the smallest and the largest cell sum, both attained |
| JavaString.ParseInt | src/edu/umn/cs/spatialHadoop/operations/PlotHeatMap.java:332 | `Integer.parseInt` succeeds exactly when the string is an optional `-` or `+` followed by a non-empty run of ASCII digits whose signed value lies in [MIN_VALUE, MAX_VALUE], and then yields that value; every failure is a NumberFormatException |
| JavaString.ParseShow | src/edu/umn/cs/spatialHadoop/operations/PlotHeatMap.java:332 | `Integer.parseInt` reads back every int that `Integer.toString` writes |
| JavaString.FindFirst | src/edu/umn/cs/spatialHadoop/operations/PlotHeatMap.java:331 | the first position where the pattern occurs, and none before it; or no occurrence at all |
| JavaString.Split2 | src/edu/umn/cs/spatialHadoop/operations/PlotHeatMap.java:331 | `split(sep, 2)`: one part exactly when the separator is absent; otherwise the parts around its first occurrence |
| JavaString.SplitJoin | src/edu/umn/cs/spatialHadoop/operations/PlotHeatMap.java:331 | splitting `a + sep + b` returns a and b when a holds no occurrence of sep |
| ImageSize.ClearLowBit | src/edu/umn/cs/spatialHadoop/operations/PlotHeatMap.java:390 | clearing bit 0 of a 32-bit pattern, computed bit by bit, subtracts the pattern's parity |
| ImageSize.EvenHeight | src/edu/umn/cs/spatialHadoop/operations/PlotHeatMap.java:390 | `height &= 0xfffffffe` on the int's two's-complement bits gives the largest even int not above the height, for negative heights too |
| Options.ParseValueRange | src/edu/umn/cs/spatialHadoop/operations/PlotHeatMap.java:329-333 | only a string with ".." or "," can succeed; a string without a separator fails with a number-format error if it is not an int, else with a missing second part; every failure is one of these two |
| Options.ParseDottedParts | src/edu/umn/cs/spatialHadoop/operations/PlotHeatMap.java:329-333 | for any "a..b" whose part a holds no "..", the result is the range (parseInt(a), parseInt(b)) when both parse and the number-format error otherwise; commas play no role |
| Options.ParseCommaParts | src/edu/umn/cs/spatialHadoop/operations/PlotHeatMap.java:329-333 | for any "a,b" without "..", whose part a holds no comma, the result is the range (parseInt(a), parseInt(b)) when both parse and the number-format error otherwise |
| Options.DotsBeforeComma | src/edu/umn/cs/spatialHadoop/operations/PlotHeatMap.java:331 | ".." is looked for before ",": "1,2..3" is split at ".." and fails on "1,2" |
| Options.ParseDotted | src/edu/umn/cs/spatialHadoop/operations/PlotHeatMap.java:490-495 | "a..b" parses to the range (a, b) for all ints a, b, negative ones included |
| Options.ParseComma | src/edu/umn/cs/spatialHadoop/operations/PlotHeatMap.java:329-333 | "a,b" parses to the range (a, b) for all ints a, b |
| Options.ParseSingle | src/edu/umn/cs/spatialHadoop/operations/PlotHeatMap.java:329-333 | a lone int fails on the missing second part |
| Options.SelectMode | src/edu/umn/cs/spatialHadoop/operations/PlotHeatMap.java:513-531 | an explicit `local` flag decides; without one, the plot is local exactly when there are at most three splits |

## Left out

- Hadoop wiring: `configure`, the job set-up of `plotHeatMapMapReduce`, output collectors and the split computation are runtime plumbing. That the mapper re-emits its cumulative map after every `map` call belongs to this plumbing too.
- Point-to-pixel mapping (lines 294–295, 478–479) uses `double` arithmetic and `Math.round`, so both splats take the pixel centre as an int input. The aspect-ratio fitting (lines 386–393, 455–459) computes the new width or height in `double` and truncates it with an `(int)` cast; only the integer even-height step that follows it (line 390) is modelled, as `ImageSize.EvenHeight`.
- Render.ToImage: records which pixels are painted and from which cell value, not their ARGB colour. The colour computation (`NASARectangle.calculateColor` and the static `NASAPoint` colour state) is foreign and stateful.
- The vertical flip of the local plotter (lines 500–505) is an AWT library call and is not modelled.
- Shape-centre extraction (`getCenterPoint`, `buffer`, `isIntersected`) lives in geometry classes that are not part of this model.
- File, stream and image I/O are not modelled: the shape readers, `FileMBR`, `ImageIO.write` and `main`/`printUsage`. The encoding is modelled on a sequence of ints: one element per `writeInt` or `readInt`.
- ValueRanges.GetValueRange: the sorted printing of the histogram (lines 156–183) is output only. The model returns the histogram instead of printing it. `MinMax.expand` is taken to widen the range to include the value, because `Aggregate.java` is not part of this model.
- Codec.Encode: on a width-0 map `write` has already emitted the width (line 113) when `getHeight` throws. The model yields only the error, not that partial output.
- Codec.Decode: the state a map is left in when `readFields` throws part-way is not modelled. A failed decode yields only the error.
- The no-argument constructor (lines 86–87) leaves `frequency` null and is used only by Hadoop before `readFields`. It is not modelled.
- JavaString.ParseInt: only ASCII digits are accepted. `Integer.parseInt` also accepts other Unicode decimal digits.
- Options.SelectMode: how `OperationsParams.is` reads the `local` parameter's text is not part of this model. The parameter is taken as absent or a boolean.
- Circles.GetCircle: a stencil that fits in a Java array may still exhaust the heap (side 46340 needs 8 GiB of pixels). That failure depends on the JVM's memory settings and is not modelled.
- Splat.AddPoint: inherits the heap limit of `Circles.GetCircle` described above.
- Render.ToImage: an image that fits in a Java array may likewise exhaust the heap; this is not modelled.
- Circles.GetCircle: the cache is a value returned with the mask rather than a mutable `HashMap` field. `InDisc` stands in for the exact pixels of AWT's `fillArc`.

## Findings

| source | as written | input that shows it | evidently intended | confidence | as-written member | corrected member |
|---|---|---|---|---|---|---|
| src/edu/umn/cs/spatialHadoop/operations/PlotHeatMap.java:123-132 | `readFields` stores the cell values y outer, x inner, while `write` (lines 115–119) emits them x outer, y inner | a 2×2 map whose only 1 is at (1, 0) is written as 2, 2, 0, 0, 1, 0, and read back with the 1 at (0, 1) | reading back a written map reproduces it; the reducer receives the mappers' maps through this encoding | not executed | Codec.DecodeEncodeScrambles | Codec.DecodeColumnMajorRoundTrip |

The fold in `Reduce` takes the partial maps as values. It therefore assumes
that they arrive intact, which holds with `Codec.DecodeColumnMajor` and not
with `Codec.Decode`.
