/** The Hadoop `Writable` encoding of a frequency map (`write` / `readFields`),
    over a stream of Java ints (each `writeInt` / `readInt` is one element).

    `write` emits the cells column by column (x outer, y inner) but
    `readFields` stores them row by row (y outer, x inner), so decoding an
    encoding only reproduces the map when it is one column wide or one row
    high. `DecodeColumnMajor` is the reader that matches `write`. */
module Codec {
  import opened JavaInt
  import opened Results
  import opened FrequencyMaps

  /** `write(out)`: width, height, then every cell in the order
      `for (int[] col : frequency) for (int value : col)` visits them.
      `getHeight` fails on a width-0 map (after the width was written). */
  function Encode(m: FrequencyMap): (r: Result<seq<int32>>)
    requires Valid(m)
    ensures r.Err? <==> Width(m) == 0
    ensures r.Err? ==> r.error == ArrayIndexOutOfBounds
    ensures r.Ok? ==> |r.value| == 2 + Width(m) * Height(m)
    ensures r.Ok? ==> r.value[0] as int == Width(m) && r.value[1] as int == Height(m)
    ensures r.Ok? ==> r.value[2..] == Flatten(m.frequency)
  {
    if |m.frequency| == 0 then Err(ArrayIndexOutOfBounds)
    else
      FlattenLength(m.frequency, Width(m), Height(m));
      Ok([Width(m) as int32, Height(m) as int32] + Flatten(m.frequency))
  }

  /** Column-major layout: cell (x, y) is the (2 + x·h + y)-th int written. */
  lemma EncodeCell(m: FrequencyMap, x: nat, y: nat)
    requires Valid(m) && x < Width(m) && y < Height(m)
    ensures Encode(m).Ok?
    ensures 2 + x * Height(m) + y < |Encode(m).value|
    ensures Encode(m).value[2 + x * Height(m) + y] == m.frequency[x][y]
  {
    var s := Encode(m).value;
    FlattenAt(m.frequency, Width(m), Height(m), x, y);
    var k := x * Height(m) + y;
    assert s[2 + k] == s[2..][k];
  }

  lemma RowMajorBound(w: nat, h: nat, x: nat, y: nat)
    requires x < w && y < h
    ensures y * w + x < w * h
  {
    assert y * w <= (h - 1) * w;
  }

  /** The value `readFields` stores at frequency[x][y]: the (y·w + x)-th cell
      value of the stream. */
  function ReadCell(s: seq<int32>, w: nat, h: nat, x: nat, y: nat): int32
    requires x < w && y < h && |s| >= 2 + w * h
  {
    RowMajorBound(w, h, x, y);
    s[2 + y * w + x]
  }

  /** `readFields(in)`: reads width and height, allocates `new int[w][h]`, then
      fills it row by row (y outer, x inner). */
  function Decode(s: seq<int32>): (r: Result<FrequencyMap>)
    ensures r.Err? <==> |s| < 2 || s[0] < 0 || s[1] < 0 || |s| < 2 + s[0] as int * s[1] as int
    ensures r.Err? ==> r.error == (if |s| >= 2 && (s[0] < 0 || s[1] < 0) then NegativeArraySize else EndOfFile)
    ensures r.Ok? ==> Valid(r.value) && r.value.circles == map[]
    ensures r.Ok? ==> Width(r.value) == s[0] as int && (s[0] > 0 ==> Height(r.value) == s[1] as int)
  {
    if |s| < 2 then Err(EndOfFile)
    else
      var w, h := s[0] as int, s[1] as int;
      if w < 0 || h < 0 then Err(NegativeArraySize)
      else if |s| < 2 + w * h then Err(EndOfFile)
      else
        var f := seq(w, x requires 0 <= x < w => seq(h, y requires 0 <= y < h => ReadCell(s, w, h, x, y)));
        Ok(FrequencyMap(f, map[]))
  }

  /** Decoding an encoding keeps the dimensions. */
  lemma DecodeEncodeDimensions(m: FrequencyMap)
    requires Valid(m) && Width(m) > 0
    ensures Encode(m).Ok? && Decode(Encode(m).value).Ok?
    ensures Width(Decode(Encode(m).value).value) == Width(m)
    ensures Height(Decode(Encode(m).value).value) == Height(m)
  {
  }

  /** `readFields` stores the (y·w + x)-th cell value of the stream at
      frequency[x][y]. */
  lemma DecodeAt(s: seq<int32>, x: nat, y: nat)
    requires Decode(s).Ok? && x < s[0] as int && y < s[1] as int
    ensures y * s[0] as int + x < s[0] as int * s[1] as int
    ensures Decode(s).value.frequency[x][y] == s[2 + y * s[0] as int + x]
  {
    RowMajorBound(s[0] as int, s[1] as int, x, y);
  }

  /** ... but cell (x, y) receives the (y·w + x)-th cell value written, which
      `write` took from cell (x', y') with x'·h + y' = y·w + x. */
  lemma DecodeEncodeCell(m: FrequencyMap, x: nat, y: nat)
    requires Valid(m) && x < Width(m) && y < Height(m)
    ensures Encode(m).Ok? && Decode(Encode(m).value).Ok?
    ensures y * Width(m) + x < |Flatten(m.frequency)|
    ensures Decode(Encode(m).value).value.frequency[x][y] == Flatten(m.frequency)[y * Width(m) + x]
  {
    var s := Encode(m).value;
    assert s[0] as int == Width(m) && s[1] as int == Height(m);
    DecodeAt(s, x, y);
    var k := y * Width(m) + x;
    assert s[2 + k] == s[2..][k];
  }

  lemma DecodeEncodeThinCell(m: FrequencyMap, x: nat, y: nat)
    requires Valid(m) && x < Width(m) && y < Height(m)
    requires Width(m) == 1 || Height(m) == 1
    ensures Encode(m).Ok? && Decode(Encode(m).value).Ok?
    ensures Decode(Encode(m).value).value.frequency[x][y] == m.frequency[x][y]
  {
    var w, h := Width(m), Height(m);
    DecodeEncodeCell(m, x, y);
    FlattenAt(m.frequency, w, h, x, y);
    if h == 1 {
      assert y == 0;
      assert y * w + x == x * h + y;
    } else {
      assert x == 0;
      assert y * w + x == x * h + y;
    }
  }

  /** A map one column wide or one row high survives the encoding unchanged. */
  lemma DecodeEncodeThin(m: FrequencyMap)
    requires Valid(m) && Width(m) > 0
    requires Width(m) == 1 || Height(m) == 1
    ensures Encode(m).Ok? && Decode(Encode(m).value).Ok?
    ensures Decode(Encode(m).value).value.frequency == m.frequency
  {
    var d := Decode(Encode(m).value).value;
    forall x | 0 <= x < Width(m)
      ensures d.frequency[x] == m.frequency[x]
    {
      forall y | 0 <= y < Height(m)
        ensures d.frequency[x][y] == m.frequency[x][y]
      {
        DecodeEncodeThinCell(m, x, y);
      }
    }
  }

  /** A square map comes back transposed. */
  lemma DecodeEncodeSquareTransposes(m: FrequencyMap, x: nat, y: nat)
    requires Valid(m) && Width(m) == Height(m) && x < Width(m) && y < Width(m)
    ensures Encode(m).Ok? && Decode(Encode(m).value).Ok?
    ensures Decode(Encode(m).value).value.frequency[x][y] == m.frequency[y][x]
  {
    DecodeEncodeCell(m, x, y);
    FlattenAt(m.frequency, Width(m), Width(m), y, x);
  }

  /** The w×h map holding a single 1, at column 1 of row 0. */
  function Marker(w: nat, h: nat): (m: FrequencyMap)
    requires 2 <= w <= MAX && 2 <= h <= MAX
    ensures Valid(m) && Width(m) == w && Height(m) == h
  {
    FrequencyMap(seq(w, x => seq(h, y => if x == 1 && y == 0 then 1 else 0)), map[])
  }

  /** Whenever the map is at least 2×2 there is a map the encoding does not
      reproduce: the 1 written at (1, 0) is read back into (0, 1). */
  lemma DecodeEncodeScrambles(w: nat, h: nat)
    requires 2 <= w <= MAX && 2 <= h <= MAX
    ensures Encode(Marker(w, h)).Ok? && Decode(Encode(Marker(w, h)).value).Ok?
    ensures Decode(Encode(Marker(w, h)).value).value.frequency[1][0] == 0
    ensures Decode(Encode(Marker(w, h)).value).value.frequency != Marker(w, h).frequency
  {
    var m := Marker(w, h);
    DecodeEncodeCell(m, 1, 0);
    FlattenAt(m.frequency, w, h, 0, 1);
    assert m.frequency[1][0] == 1;
  }

  /** `body` cut into `w` consecutive columns of `h` values. */
  function Columns(body: seq<int32>, w: nat, h: nat): (f: Grid)
    requires |body| >= w * h
    ensures IsGrid(f, w, h)
  {
    if w == 0 then []
    else
      assert w * h == (w - 1) * h + h;
      [body[..h]] + Columns(body[h..], w - 1, h)
  }

  /** A reader that matches `write`: the cells are read column after column. */
  function DecodeColumnMajor(s: seq<int32>): (r: Result<FrequencyMap>)
    ensures r.Err? <==> |s| < 2 || s[0] < 0 || s[1] < 0 || |s| < 2 + s[0] as int * s[1] as int
    ensures r.Err? ==> r.error == (if |s| >= 2 && (s[0] < 0 || s[1] < 0) then NegativeArraySize else EndOfFile)
    ensures r.Ok? ==> Valid(r.value) && r.value.circles == map[]
    ensures r.Ok? ==> Width(r.value) == s[0] as int && (s[0] > 0 ==> Height(r.value) == s[1] as int)
  {
    if |s| < 2 then Err(EndOfFile)
    else
      var w, h := s[0] as int, s[1] as int;
      if w < 0 || h < 0 then Err(NegativeArraySize)
      else if |s| < 2 + w * h then Err(EndOfFile)
      else Ok(FrequencyMap(Columns(s[2..], w, h), map[]))
  }

  lemma {:induction false} ColumnsOfFlatten(f: Grid, w: nat, h: nat)
    requires IsGrid(f, w, h)
    ensures |Flatten(f)| == w * h && Columns(Flatten(f), w, h) == f
  {
    FlattenLength(f, w, h);
    if w > 0 {
      FlattenLength(f[1..], w - 1, h);
      assert Flatten(f)[..h] == f[0];
      assert Flatten(f)[h..] == Flatten(f[1..]);
      ColumnsOfFlatten(f[1..], w - 1, h);
    }
  }

  lemma {:induction false} FlattenOfColumns(body: seq<int32>, w: nat, h: nat)
    requires |body| >= w * h
    ensures Flatten(Columns(body, w, h)) == body[..w * h]
  {
    if w > 0 {
      var n := (w - 1) * h;
      assert w * h == h + n;
      assert body[..w * h] == body[..h] + body[h..][..n];
      FlattenOfColumns(body[h..], w - 1, h);
    }
  }

  /** The matching reader undoes `write` exactly (the mask cache is not part
      of the encoding). */
  lemma DecodeColumnMajorRoundTrip(m: FrequencyMap)
    requires Valid(m) && Width(m) > 0
    ensures Encode(m).Ok?
    ensures DecodeColumnMajor(Encode(m).value) == Ok(FrequencyMap(m.frequency, map[]))
  {
    var s := Encode(m).value;
    assert s[2..] == Flatten(m.frequency);
    ColumnsOfFlatten(m.frequency, Width(m), Height(m));
  }

  /** ... and `write` reproduces every stream the matching reader accepts with
      a positive width, up to the end of the cells it read. */
  lemma EncodeDecodeColumnMajor(s: seq<int32>)
    requires DecodeColumnMajor(s).Ok? && s[0] > 0
    ensures Encode(DecodeColumnMajor(s).value) == Ok(s[..2 + s[0] as int * s[1] as int])
  {
    var w, h := s[0] as int, s[1] as int;
    var m := DecodeColumnMajor(s).value;
    FlattenOfColumns(s[2..], w, h);
    assert Width(m) as int32 == s[0] && Height(m) as int32 == s[1];
    assert s[..2 + w * h] == [s[0], s[1]] + s[2..][..w * h];
  }
}
