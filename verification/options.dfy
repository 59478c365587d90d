/** Two decisions taken from the user's parameters: the `valuerange` option
    (parsed identically by the reducer's `configure` and by the local plotter)
    and the choice between plotting locally and running the MapReduce job. */
module Options {
  import opened JavaInt
  import opened Results
  import opened ValueRanges
  import opened JavaString

  /** `valuerange` parsing: split at the first ".." when the string contains
      one, otherwise at the first ","; then `parseInt(parts[0])` and
      `parseInt(parts[1])`, in that order. A string without a separator has
      no second part, which fails only after the first part parsed. */
  function ParseValueRange(s: string): (r: Result<MinMax>)
    ensures r.Ok? ==> Contains(s, "..") || Contains(s, ",")
    ensures !Contains(s, "..") && !Contains(s, ",") ==>
              r == Err(if ParseInt(s).Ok? then ArrayIndexOutOfBounds else NumberFormat)
    ensures r.Err? ==> r.error == NumberFormat || r.error == ArrayIndexOutOfBounds
  {
    var parts := if Contains(s, "..") then Split2(s, "..") else Split2(s, ",");
    match ParseInt(parts[0])
    case Err(e) => Err(e)
    case Ok(lo) =>
      if |parts| < 2 then Err(ArrayIndexOutOfBounds)
      else
        match ParseInt(parts[1])
        case Err(e) => Err(e)
        case Ok(hi) => Ok(MinMax(lo, hi))
  }

  /** A one-character separator that is not in `s` occurs nowhere in it. */
  lemma AbsentChar(s: string, sep: string)
    requires |sep| > 0 && forall k | 0 <= k < |s| :: s[k] != sep[0]
    ensures forall i | 0 <= i <= |s| :: !OccursAt(s, sep, i)
  {
    forall i | 0 <= i <= |s|
      ensures !OccursAt(s, sep, i)
    {
      if i + |sep| <= |s| {
        assert s[i..i + |sep|][0] == s[i];
      }
    }
  }

  /** `Integer.toString` writes neither '.' nor ','. */
  lemma ShowHasNoSeparator(a: int32)
    ensures forall k | 0 <= k < |Show(a)| :: Show(a)[k] != '.' && Show(a)[k] != ','
  {
  }

  /** The separator occurs right after `a` and nowhere inside it. */
  lemma FirstSeparator(a: int32, sep: string, b: string)
    requires |sep| > 0 && (sep[0] == '.' || sep[0] == ',')
    ensures forall i | 0 <= i < |Show(a)| :: !OccursAt(Show(a) + sep + b, sep, i)
  {
    var s := Show(a) + sep + b;
    forall i | 0 <= i < |Show(a)|
      ensures !OccursAt(s, sep, i)
    {
      assert s[i] == Show(a)[i];
      if i + |sep| <= |s| {
        assert s[i..i + |sep|][0] == s[i];
      }
    }
  }

  /** "a..b", where `a` holds no "..": both parts are parsed as ints, and the
      range is (a, b) when both parse; otherwise the number-format error.
      Commas in either part do not matter, since ".." is looked for first. */
  lemma ParseDottedParts(a: string, b: string)
    requires forall i | 0 <= i < |a| :: !OccursAt(a + ".." + b, "..", i)
    ensures ParseInt(a).Ok? && ParseInt(b).Ok? ==>
              ParseValueRange(a + ".." + b) == Ok(MinMax(ParseInt(a).value, ParseInt(b).value))
    ensures !(ParseInt(a).Ok? && ParseInt(b).Ok?) ==> ParseValueRange(a + ".." + b) == Err(NumberFormat)
  {
    assert OccursAt(a + ".." + b, "..", |a|);
    SplitJoin(a, "..", b);
  }

  /** "a,b" without any "..", where `a` holds no comma: the two parts are
      parsed as ints, as for "a..b". */
  lemma ParseCommaParts(a: string, b: string)
    requires !Contains(a + "," + b, "..")
    requires forall k | 0 <= k < |a| :: a[k] != ','
    ensures ParseInt(a).Ok? && ParseInt(b).Ok? ==>
              ParseValueRange(a + "," + b) == Ok(MinMax(ParseInt(a).value, ParseInt(b).value))
    ensures !(ParseInt(a).Ok? && ParseInt(b).Ok?) ==> ParseValueRange(a + "," + b) == Err(NumberFormat)
  {
    var s := a + "," + b;
    forall i | 0 <= i < |a|
      ensures !OccursAt(s, ",", i)
    {
      assert s[i] == a[i];
      if i + 1 <= |s| {
        assert s[i..i + 1][0] == s[i];
      }
    }
    assert OccursAt(s, ",", |a|);
    SplitJoin(a, ",", b);
  }

  /** ".." takes precedence over ",": "1,2..3" is split at "..", and its
      first part "1,2" is not an int. */
  lemma DotsBeforeComma()
    ensures ParseValueRange("1,2..3") == Err(NumberFormat)
  {
    assert "1,2..3" == "1,2" + ".." + "3";
    forall i | 0 <= i < 3
      ensures !OccursAt("1,2..3", "..", i)
    {
      assert "1,2..3"[i..i + 2][0] == "1,2..3"[i] != '.';
    }
    assert !AllDigits("1,2") by {
      assert !IsDigit("1,2"[1]);
    }
    ParseDottedParts("1,2", "3");
  }

  /** "a..b" reads back as the range (a, b) for every pair of ints. */
  lemma ParseDotted(a: int32, b: int32)
    ensures ParseValueRange(Show(a) + ".." + Show(b)) == Ok(MinMax(a, b))
  {
    FirstSeparator(a, "..", Show(b));
    ParseShow(a);
    ParseShow(b);
    ParseDottedParts(Show(a), Show(b));
  }

  /** "a,b" reads back as the range (a, b) for every pair of ints. */
  lemma ParseComma(a: int32, b: int32)
    ensures ParseValueRange(Show(a) + "," + Show(b)) == Ok(MinMax(a, b))
  {
    var s := Show(a) + "," + Show(b);
    ShowHasNoSeparator(a);
    ShowHasNoSeparator(b);
    forall k | 0 <= k < |s|
      ensures s[k] != '.'
    {
      if k < |Show(a)| {
        assert s[k] == Show(a)[k];
      } else if k == |Show(a)| {
        assert s[k] == ',';
      } else {
        assert s[k] == Show(b)[k - |Show(a)| - 1];
      }
    }
    AbsentChar(s, "..");
    ParseShow(a);
    ParseShow(b);
    ParseCommaParts(Show(a), Show(b));
  }

  /** A lone int names no range: its second part is missing. */
  lemma ParseSingle(a: int32)
    ensures ParseValueRange(Show(a)) == Err(ArrayIndexOutOfBounds)
  {
    ShowHasNoSeparator(a);
    AbsentChar(Show(a), "..");
    AbsentChar(Show(a), ",");
    ParseShow(a);
  }

  /** Where the heat map is computed. */
  datatype Mode = Local | MapReduce

  /** `plotHeatMap`: an explicit `local` parameter decides; without one the
      plot runs locally exactly when the input has at most three splits. */
  function SelectMode(local: Option<bool>, splits: nat): (r: Mode)
    ensures local.Some? ==> (r == Local <==> local.value)
    ensures local.None? ==> (r == Local <==> splits <= 3)
  {
    match local
    case Some(b) => if b then Local else MapReduce
    case None => if splits <= 3 then Local else MapReduce
  }
}
