/** The latitude/longitude group of a metadata chunk and the degree/minute
    conversion applied to each axis, over exact reals (the source uses
    binary floating point; see README). */
module Coordinates {
  import opened Errors
  import opened Bytes

  /** One axis of a fix: `(dec, deg, min, sec, isNorth)` for latitude and
      `(dec, deg, min, sec, isEast)` for longitude. */
  datatype Coord = Coord(decimal: real, degrees: nat, minutes: int, seconds: real, positive: bool)

  /** Decimal degrees and degree/minute/second parts of `deg` degrees and
      `minsec` decimal minutes: `dec = deg + m/60`, `min = m // 1`,
      `sec = m % 1 * 60`.  The parts reconstruct the decimal value exactly. */
  function ToCoord(deg: nat, minsec: real, positive: bool): (c: Coord)
    ensures c.degrees == deg && c.positive == positive
    ensures c.minutes as real <= minsec < c.minutes as real + 1.0
    ensures 0.0 <= c.seconds < 60.0
    ensures c.decimal == deg as real + minsec / 60.0
    ensures deg as real + (c.minutes as real + c.seconds / 60.0) / 60.0 == c.decimal
  {
    var whole := minsec.Floor;
    Coord(deg as real + minsec / 60.0, deg, whole, (minsec - whole as real) * 60.0, positive)
  }

  predicate IsDigitOrDot(c: char) { IsDigit(c) || c == '.' }

  /** `[\d\.]` on bytes. */
  predicate DigitOrDotBytes(s: seq<byte>) {
    forall i :: 0 <= i < |s| ==> IsDigitByte(s[i]) || s[i] == '.' as int
  }

  /** Position of the first dot, if any. */
  function FindDot(s: string, from: nat): (r: Option<nat>)
    ensures r.Some? ==> from <= r.value < |s| && s[r.value] == '.'
    ensures r.Some? ==> forall j :: from <= j < r.value ==> s[j] != '.'
    ensures r.None? ==> forall j :: from <= j < |s| ==> s[j] != '.'
    decreases |s| - from
  {
    if from >= |s| then None
    else if s[from] == '.' then Some(from)
    else FindDot(s, from + 1)
  }

  /** `float(s)` for a string of digits and dots: it is accepted iff it has at
      most one dot and at least one digit; the value is read exactly. */
  function ParseFloat(s: string): (r: Option<real>)
    requires forall i :: 0 <= i < |s| ==> IsDigitOrDot(s[i])
  {
    match FindDot(s, 0)
    case None =>
      if |s| == 0 then None
      else
        DotFreeIsDigits(s, 0, |s|);
        assert s[0..|s|] == s;
        Some(DecimalValue(s) as real)
    case Some(k) =>
      if FindDot(s, k + 1).Some? || |s| == 1 then None
      else
        DotFreeIsDigits(s, 0, k);
        DotFreeIsDigits(s, k + 1, |s|);
        Some(FractionValue(s[..k], s[k + 1..]))
  }

  /** The value of `a.b` for digit strings `a` and `b`: the digits of both
      read as one integer, over ten to the number of fraction digits. */
  function FractionValue(a: string, b: string): real
    requires AllDigits(a) && AllDigits(b)
  {
    DecimalValueAppend(a, b);
    DecimalValue(a + b) as real / Pow10(|b|) as real
  }

  lemma DotFreeIsDigits(s: string, lo: nat, hi: nat)
    requires lo <= hi <= |s|
    requires forall i :: 0 <= i < |s| ==> IsDigitOrDot(s[i])
    requires forall j :: lo <= j < hi ==> s[j] != '.'
    ensures AllDigits(s[lo..hi])
  {
    assert forall i :: 0 <= i < hi - lo ==> s[lo..hi][i] == s[lo + i];
  }

  /** The digits in front of the dot (all of them when there is none). */
  function IntegerDigits(s: string): (t: string)
    requires forall i :: 0 <= i < |s| ==> IsDigitOrDot(s[i])
    ensures AllDigits(t) && |t| <= |s|
  {
    match FindDot(s, 0)
    case None =>
      DotFreeIsDigits(s, 0, |s|);
      assert s[0..|s|] == s;
      s
    case Some(k) =>
      DotFreeIsDigits(s, 0, k);
      assert s[0..k] == s[..k];
      s[..k]
  }

  /** The digits after the dot of an accepted float (none without a dot). */
  function FractionDigits(s: string): (t: string)
    requires forall i :: 0 <= i < |s| ==> IsDigitOrDot(s[i])
    requires ParseFloat(s).Some?
    ensures AllDigits(t) && |t| < |s|
  {
    match FindDot(s, 0)
    case None => ""
    case Some(k) =>
      DotFreeIsDigits(s, k + 1, |s|);
      assert s[k + 1..|s|] == s[k + 1..];
      s[k + 1..]
  }

  /** An accepted float's whole part is the number its integer digits spell,
      so `minsec // 1` is the minutes written in the field; what is left is
      the fraction digits over their scale. */
  lemma {:induction false} ParseFloatWholePart(s: string)
    requires forall i :: 0 <= i < |s| ==> IsDigitOrDot(s[i])
    requires ParseFloat(s).Some?
    ensures ParseFloat(s).value.Floor == DecimalValue(IntegerDigits(s))
    ensures ParseFloat(s).value - DecimalValue(IntegerDigits(s)) as real
            == DecimalValue(FractionDigits(s)) as real / Pow10(|FractionDigits(s)|) as real
    ensures 0.0 <= ParseFloat(s).value - DecimalValue(IntegerDigits(s)) as real < 1.0
  {
    match FindDot(s, 0)
    case None =>
      DotFreeIsDigits(s, 0, |s|);
      assert s[0..|s|] == s;
      FloorOf(DecimalValue(s), 0.0);
    case Some(k) =>
      DotFreeIsDigits(s, 0, k);
      DotFreeIsDigits(s, k + 1, |s|);
      var a, b := s[..k], s[k + 1..];
      assert s[0..k] == a && s[k + 1..|s|] == b;
      assert ParseFloat(s).value == FractionValue(a, b);
      WholeAndFraction(a, b);
  }

  /** `a.b` has whole part `a` and fraction `b` over its scale, below one. */
  lemma WholeAndFraction(a: string, b: string)
    requires AllDigits(a) && AllDigits(b)
    ensures FractionValue(a, b).Floor == DecimalValue(a)
    ensures FractionValue(a, b) - DecimalValue(a) as real == DecimalValue(b) as real / Pow10(|b|) as real
    ensures 0.0 <= DecimalValue(b) as real / Pow10(|b|) as real < 1.0
  {
    DecimalValueAppend(a, b);
    DecimalValueBound(b);
    ScaledSplit(FractionValue(a, b), DecimalValue(a), DecimalValue(b), Pow10(|b|), DecimalValue(a + b));
  }

  /** `w / n` with `w == va * n + vb` and `vb < n` has whole part `va`. */
  lemma ScaledSplit(f: real, va: nat, vb: nat, n: nat, w: nat)
    requires vb < n && w == va * n + vb
    requires f == w as real / n as real
    ensures f.Floor == va
    ensures f - va as real == vb as real / n as real
    ensures 0.0 <= vb as real / n as real < 1.0
  {
    var a, b, m := va as real, vb as real, n as real;
    CastSum(va, vb, n, w);
    DivideSum(a, b, m, w as real);
    assert f == a + b / m;
    ProperFraction(b, m);
    FloorOf(va, b / m);
  }

  lemma CastSum(va: nat, vb: nat, n: nat, w: nat)
    requires w == va * n + vb
    ensures w as real == va as real * n as real + vb as real
  {
  }

  lemma DivideSum(x: real, y: real, n: real, z: real)
    requires n > 0.0 && z == x * n + y
    ensures z / n == x + y / n
  {
  }

  lemma ProperFraction(y: real, n: real)
    requires 0.0 <= y < n
    ensures 0.0 <= y / n < 1.0
  {
  }

  lemma FloorOf(k: int, q: real)
    requires 0.0 <= q < 1.0
    ensures (k as real + q).Floor == k
  {
  }

  /** A field with a single dot is accepted exactly when it is longer than
      the dot. */
  lemma OneDotAccepted(s: string, k: nat)
    requires forall i :: 0 <= i < |s| ==> IsDigitOrDot(s[i])
    requires k < |s| && s[k] == '.'
    requires forall j :: 0 <= j < |s| && j != k ==> s[j] != '.'
    ensures ParseFloat(s).Some? <==> |s| > 1
  {
    OnlyDot(s, k);
  }

  lemma OnlyDot(s: string, k: nat)
    requires k < |s| && s[k] == '.'
    requires forall j :: 0 <= j < |s| && j != k ==> s[j] != '.'
    ensures FindDot(s, 0) == Some(k) && FindDot(s, k + 1).None?
  {
  }

  /** Two dots are never a float. */
  lemma TwoDotsRejected(s: string, j: nat, k: nat)
    requires forall i :: 0 <= i < |s| ==> IsDigitOrDot(s[i])
    requires j < k < |s| && s[j] == '.' && s[k] == '.'
    ensures ParseFloat(s).None?
  {
    var d := FindDot(s, 0).value;
    assert d <= j;
    assert FindDot(s, d + 1).Some?;
  }

  /** `(\d{2})([\d\.]{7})([NS])(\d{3})([\d\.]{7})([EW])` matches the 21-byte
      group; the pattern has the group's length, so it can only match at 0. */
  predicate LatLonMatches(f: seq<byte>) {
    && |f| == 21
    && AllDigitBytes(f[0..2]) && DigitOrDotBytes(f[2..9]) && (f[9] == 'N' as int || f[9] == 'S' as int)
    && AllDigitBytes(f[10..13]) && DigitOrDotBytes(f[13..20]) && (f[20] == 'E' as int || f[20] == 'W' as int)
  }

  function FieldText(s: seq<byte>): (t: string)
    requires DigitOrDotBytes(s)
    ensures |t| == |s| && forall i :: 0 <= i < |t| ==> IsDigitOrDot(t[i])
  {
    AsciiChars(s)
  }

  function DigitText(s: seq<byte>): (t: string)
    requires AllDigitBytes(s)
    ensures |t| == |s| && AllDigits(t)
  {
    AsciiChars(s)
  }

  /** The coordinate branch of `_parseCoordinate`: IndexError when the group
      does not match, ValueError when a minutes field is not a float. */
  function ParseLatLon(f: seq<byte>): (r: Result<(Coord, Coord)>)
    ensures r.Err? ==> (r.error == IndexError <==> !LatLonMatches(f))
    ensures r.Err? ==> r.error in {IndexError, ValueError}
    ensures LatLonMatches(f) ==>
              (r.Ok? <==> ParseFloat(FieldText(f[2..9])).Some? && ParseFloat(FieldText(f[13..20])).Some?)
    ensures r.Ok? ==> LatLonMatches(f)
                      && ParseFloat(FieldText(f[2..9])).Some? && ParseFloat(FieldText(f[13..20])).Some?
                      && r.value.0 == ToCoord(DecimalValue(DigitText(f[0..2])), ParseFloat(FieldText(f[2..9])).value,
                                              f[9] == 'N' as int)
                      && r.value.1 == ToCoord(DecimalValue(DigitText(f[10..13])), ParseFloat(FieldText(f[13..20])).value,
                                              f[20] == 'E' as int)
  {
    if !LatLonMatches(f) then Err(IndexError)
    else
      match (ParseFloat(FieldText(f[2..9])), ParseFloat(FieldText(f[13..20])))
      case (Some(latMin), Some(lonMin)) =>
        Ok((ToCoord(DecimalValue(DigitText(f[0..2])), latMin, f[9] == 'N' as int),
            ToCoord(DecimalValue(DigitText(f[10..13])), lonMin, f[20] == 'E' as int)))
      case _ => Err(ValueError)
  }

  /** On a parsed fix the minutes of each axis are the integer digits of its
      minutes field, and the seconds are its fraction digits, over their
      scale, times sixty. */
  lemma LatLonMinutes(f: seq<byte>)
    requires ParseLatLon(f).Ok?
    ensures var lat, lon := ParseLatLon(f).value.0, ParseLatLon(f).value.1;
            var a, b := FieldText(f[2..9]), FieldText(f[13..20]);
            && lat.minutes == DecimalValue(IntegerDigits(a))
            && lon.minutes == DecimalValue(IntegerDigits(b))
            && lat.seconds == 60.0 * (DecimalValue(FractionDigits(a)) as real / Pow10(|FractionDigits(a)|) as real)
            && lon.seconds == 60.0 * (DecimalValue(FractionDigits(b)) as real / Pow10(|FractionDigits(b)|) as real)
  {
    ParseFloatWholePart(FieldText(f[2..9]));
    ParseFloatWholePart(FieldText(f[13..20]));
  }
}
