/** The two pieces of `java.lang` the option parser relies on:
    `Integer.parseInt` on decimal strings and `String.split(sep, 2)` with a
    literal separator, together with the decimal rendering `Integer.toString`
    that `parseInt` inverts. Only ASCII digits are modelled. */
module JavaString {
  import opened JavaInt
  import opened Results

  predicate IsDigit(c: char)
  {
    '0' <= c <= '9'
  }

  predicate AllDigits(s: string)
  {
    forall i | 0 <= i < |s| :: IsDigit(s[i])
  }

  /** The number a string of ASCII digits denotes (most significant first). */
  function DigitsValue(s: string): nat
    requires AllDigits(s)
  {
    if |s| == 0 then 0
    else DigitsValue(s[..|s| - 1]) * 10 + (s[|s| - 1] as int - '0' as int)
  }

  /** `s` is a decimal numeral for `v`: a `-` or `+` sign or none, then a
      non-empty run of ASCII digits whose value, negated after `-`, is `v`. */
  ghost predicate IsDecimal(s: string, v: int)
  {
    || (|s| > 1 && s[0] == '-' && AllDigits(s[1..]) && v == -(DigitsValue(s[1..]) as int))
    || (|s| > 1 && s[0] == '+' && AllDigits(s[1..]) && v == DigitsValue(s[1..]))
    || (|s| > 0 && AllDigits(s) && v == DigitsValue(s))
  }

  /** `Integer.parseInt(s)`: an optional sign followed by at least one digit,
      whose value fits in an int; anything else is a NumberFormatException.
      It succeeds exactly when `s` is the numeral of some int, and then yields
      that int. */
  function ParseInt(s: string): (r: Result<int32>)
    ensures r.Err? ==> r.error == NumberFormat
    ensures r.Ok? ==> |s| > 0 && (s[0] == '-' || s[0] == '+' || IsDigit(s[0]))
    ensures r.Ok? && s[0] == '-' ==> r.value <= 0
    ensures r.Ok? && s[0] != '-' ==> r.value >= 0
    ensures r.Ok? ==> IsDecimal(s, r.value as int)
    ensures forall v | IsDecimal(s, v) && MIN <= v <= MAX :: r == Ok(v as int32)
  {
    if |s| == 0 then Err(NumberFormat)
    else
      var negative := s[0] == '-';
      var digits := if s[0] == '-' || s[0] == '+' then s[1..] else s;
      if |digits| == 0 || !AllDigits(digits) then Err(NumberFormat)
      else
        var v: int := if negative then -(DigitsValue(digits) as int) else DigitsValue(digits);
        if v < MIN || MAX < v then Err(NumberFormat) else Ok(v as int32)
  }

  function DigitChar(d: nat): (c: char)
    requires d < 10
    ensures IsDigit(c) && c as int - '0' as int == d
  {
    ('0' as int + d) as char
  }

  /** Decimal digits of `n`, without leading zeros. */
  function NatToString(n: nat): (s: string)
    ensures |s| > 0 && AllDigits(s)
  {
    if n < 10 then [DigitChar(n)] else NatToString(n / 10) + [DigitChar(n % 10)]
  }

  /** `Integer.toString(a)`. */
  function Show(a: int32): (s: string)
    ensures |s| > 0
    ensures forall i | 0 <= i < |s| :: IsDigit(s[i]) || (i == 0 && s[i] == '-')
  {
    if a < 0 then "-" + NatToString(-(a as int)) else NatToString(a as nat)
  }

  lemma {:induction false} DigitsOfNat(n: nat)
    ensures DigitsValue(NatToString(n)) == n
  {
    var s := NatToString(n);
    if n >= 10 {
      DigitsOfNat(n / 10);
      assert s[..|s| - 1] == NatToString(n / 10);
    }
  }

  /** `parseInt` reads back every int that `toString` writes. */
  lemma ParseShow(a: int32)
    ensures ParseInt(Show(a)) == Ok(a)
  {
    if a < 0 {
      DigitsOfNat(-(a as int));
      assert Show(a)[1..] == NatToString(-(a as int));
    } else {
      DigitsOfNat(a as nat);
    }
  }

  /** `pat` occurs in `s` at position i. */
  predicate OccursAt(s: string, pat: string, i: nat)
  {
    i + |pat| <= |s| && s[i..i + |pat|] == pat
  }

  /** The first position where `pat` occurs in `s`, if any. */
  function FindFirst(s: string, pat: string, from: nat): (r: Option<nat>)
    requires from <= |s|
    ensures r.Some? ==> from <= r.value && OccursAt(s, pat, r.value)
                        && forall i | from <= i < r.value :: !OccursAt(s, pat, i)
    ensures r.None? ==> forall i | from <= i <= |s| :: !OccursAt(s, pat, i)
    decreases |s| - from
  {
    if OccursAt(s, pat, from) then Some(from)
    else if from == |s| then None
    else FindFirst(s, pat, from + 1)
  }

  /** `s.contains(pat)` */
  predicate Contains(s: string, pat: string)
  {
    exists i | 0 <= i <= |s| :: OccursAt(s, pat, i)
  }

  /** `s.split(sep, 2)` for a literal, non-empty separator: the whole string
      when `sep` does not occur, otherwise the parts before and after its
      first occurrence (an empty part is kept). */
  function Split2(s: string, sep: string): (parts: seq<string>)
    requires |sep| > 0
    ensures 1 <= |parts| <= 2
    ensures |parts| == 1 <==> !Contains(s, sep)
    ensures |parts| == 1 ==> parts[0] == s
    ensures |parts| == 2 ==> parts[0] + sep + parts[1] == s
    ensures |parts| == 2 ==> forall i | 0 <= i < |parts[0]| :: !OccursAt(s, sep, i)
  {
    match FindFirst(s, sep, 0)
    case None => [s]
    case Some(i) =>
      assert s == s[..i] + sep + s[i + |sep|..];
      [s[..i], s[i + |sep|..]]
  }

  /** When the first part carries no occurrence of the separator, splitting
      `a + sep + b` gives back `a` and `b`. */
  lemma SplitJoin(a: string, sep: string, b: string)
    requires |sep| > 0
    requires forall i | 0 <= i < |a| :: !OccursAt(a + sep + b, sep, i)
    ensures Split2(a + sep + b, sep) == [a, b]
  {
    var s := a + sep + b;
    assert OccursAt(s, sep, |a|);
    var parts := Split2(s, sep);
    assert |parts| == 2;
    var k := |parts[0]|;
    assert s[k..k + |sep|] == sep;
    assert OccursAt(s, sep, k);
    assert k == |a|;
    assert parts[0] == s[..|a|] == a;
    assert parts[1] == s[|a| + |sep|..] == b;
  }
}
