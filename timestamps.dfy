/** Date-time fields as `datetime.strptime` reads them with the formats
    `%y%m%d%H%M%S` and `%y%m%d%H%M%S.%f`, and as `strftime` writes them
    with `%Y%m%d-%H%M%S`.  Reading follows the pattern `_strptime` compiles
    such a format into: each directive is an ordered alternation,
    `re.match` takes the first combination of alternatives that matches
    from the start, the match must then cover the whole string, and the
    captured fields must pass the `datetime` range checks. */
module Timestamps {
  import opened Errors
  import opened Bytes

  datatype DateTime = DateTime(year: int, month: nat, day: nat, hour: nat,
                               minute: nat, second: nat, microsecond: nat)

  /** `%y`: two-digit years 69..99 are 1969..1999, 00..68 are 2000..2068. */
  function CenturyYear(yy: nat): (y: int)
    ensures yy < 100 ==> 1969 <= y <= 2068 && y % 100 == yy
  {
    if yy <= 68 then 2000 + yy else 1900 + yy
  }

  predicate IsLeap(y: int) { y % 4 == 0 && (y % 100 != 0 || y % 400 == 0) }

  function DaysInMonth(y: int, m: nat): (n: nat)
    requires 1 <= m <= 12
    ensures 28 <= n <= 31
    ensures n == 31 <==> m == 1 || m == 3 || m == 5 || m == 7 || m == 8 || m == 10 || m == 12
    ensures m == 2 ==> (n == 29 <==> IsLeap(y))
  {
    if m == 2 then (if IsLeap(y) then 29 else 28)
    else if m == 4 || m == 6 || m == 9 || m == 11 then 30
    else 31
  }

  /** The ranges the `datetime` constructor accepts; outside them it raises
      ValueError. */
  predicate ValidDateTime(d: DateTime) {
    && 1 <= d.year <= 9999 && 1 <= d.month <= 12 && 1 <= d.day <= DaysInMonth(d.year, d.month)
    && d.hour < 24 && d.minute < 60 && d.second < 60 && d.microsecond < 1000000
  }

  /** The two low decimal digits of `n`, zero padded: strftime's `%m`,
      `%d`, `%H`, `%M` and `%S` on the two-digit values read here. */
  function TwoDigits(n: nat): (s: string)
    ensures |s| == 2 && AllDigits(s)
  {
    [Digit(n / 10 % 10), Digit(n % 10)]
  }

  /** The four low decimal digits of `n`: `%Y` on a year of 1969..2068. */
  function FourDigits(n: nat): (s: string)
    ensures |s| == 4 && AllDigits(s)
  {
    TwoDigits(n / 100) + TwoDigits(n % 100)
  }

  lemma DigitOfValue(c: char)
    requires IsDigit(c)
    ensures Digit(DigitValue(c)) == c
  {
  }

  /** Zero-padded formatting and reading agree on a two-digit field. */
  lemma TwoDigitsOfValue(t: string)
    requires |t| == 2 && AllDigits(t)
    ensures DecimalValue(t) < 100
    ensures TwoDigits(DecimalValue(t)) == t
  {
    var hi, lo := DigitValue(t[0]), DigitValue(t[1]);
    PairValue(t);
    SplitPair(hi, lo);
    DigitOfValue(t[0]);
    DigitOfValue(t[1]);
  }

  lemma PairValue(t: string)
    requires |t| == 2 && AllDigits(t)
    ensures DecimalValue(t) == 10 * DigitValue(t[0]) + DigitValue(t[1])
  {
    var h := t[..1];
    assert h[..0] == [] && h[0] == t[0];
    assert DecimalValue(h) == DigitValue(t[0]);
  }

  /** `x / 10 % 10` and `x % 10` pick out the two digits of `x`. */
  lemma SplitPair(hi: nat, lo: nat)
    requires hi < 10 && lo < 10
    ensures (10 * hi + lo) / 10 % 10 == hi && (10 * hi + lo) % 10 == lo
  {
    var n := 10 * hi + lo;
    assert n / 10 == hi;
  }

  lemma SplitCentury(c: nat, yy: nat)
    requires yy < 100
    ensures (100 * c + yy) / 100 == c && (100 * c + yy) % 100 == yy
  {
  }

  /** The six two-digit fields of `%y%m%d%H%M%S`, read positionally. */
  function FieldsOf(s: string, micro: nat): (d: DateTime)
    requires |s| == 12 && AllDigits(s)
  {
    DecimalValueBound(s[0..2]);
    DateTime(CenturyYear(DecimalValue(s[0..2])),
             DecimalValue(s[2..4]), DecimalValue(s[4..6]), DecimalValue(s[6..8]),
             DecimalValue(s[8..10]), DecimalValue(s[10..12]), micro)
  }

  /** `%f`: one to six digits, the fraction of a second padded on the right. */
  function Microseconds(f: string): (us: nat)
    requires 1 <= |f| <= 6 && AllDigits(f)
    ensures us < 1000000
  {
    DecimalValueBound(f);
    Pow10Add(|f|, 6 - |f|);
    MulBelow(DecimalValue(f), Pow10(|f|), Pow10(6 - |f|));
    DecimalValue(f) * Pow10(6 - |f|)
  }

  lemma MulBelow(a: nat, p: nat, q: nat)
    requires a < p
    ensures a * q <= p * q - q
  {
    var e: nat := p - a - 1;
    var eq: nat := e * q;
    assert p * q == a * q + q + eq;
  }

  lemma {:induction false} Pow10Add(a: nat, b: nat)
    ensures Pow10(a) * Pow10(b) == Pow10(a + b)
  {
    if a > 0 {
      Pow10Add(a - 1, b);
      var x, y := Pow10(a - 1), Pow10(b);
      MulTen(x, y);
    }
  }

  lemma MulTen(x: nat, y: nat)
    ensures (10 * x) * y == 10 * (x * y)
  {
  }

  // ---------------------------------------------------------------------
  // The pattern `_strptime` compiles the two formats into

  /** A character range `[lo-hi]`; a literal character is a range of one. */
  datatype CharClass = Chars(lo: char, hi: char)

  predicate InClass(k: CharClass, c: char) { k.lo <= c <= k.hi }

  /** One alternative of a directive: a fixed run of character classes. */
  type Alternative = seq<CharClass>

  /** A directive's pattern: its alternatives, tried in the order written. */
  type Directive = seq<Alternative>

  /** `\d` (on ASCII digits) and `[0-9]`. */
  const DIGIT := Chars('0', '9')

  /** `%y`: `\d\d`. */
  const YEAR: Directive := [[DIGIT, DIGIT]]
  /** `%m`: `1[0-2]|0[1-9]|[1-9]`. */
  const MONTH: Directive := [[Chars('1', '1'), Chars('0', '2')], [Chars('0', '0'), Chars('1', '9')], [Chars('1', '9')]]
  /** `%d`: `3[01]|[12]\d|0[1-9]|[1-9]| [1-9]`. */
  const DAY: Directive := [[Chars('3', '3'), Chars('0', '1')], [Chars('1', '2'), DIGIT], [Chars('0', '0'), Chars('1', '9')],
                           [Chars('1', '9')], [Chars(' ', ' '), Chars('1', '9')]]
  /** `%H`: `2[0-3]|[0-1]\d|\d`. */
  const HOUR: Directive := [[Chars('2', '2'), Chars('0', '3')], [Chars('0', '1'), DIGIT], [DIGIT]]
  /** `%M`: `[0-5]\d|\d`. */
  const MINUTE: Directive := [[Chars('0', '5'), DIGIT], [DIGIT]]
  /** `%S`: `6[0-1]|[0-5]\d|\d`. */
  const SECOND: Directive := [[Chars('6', '6'), Chars('0', '1')], [Chars('0', '5'), DIGIT], [DIGIT]]
  /** The `.` of the format, escaped to a literal. */
  const DOT: Directive := [[Chars('.', '.')]]
  /** `%f`: `[0-9]{1,6}`, greedy, so six digits are tried first. */
  const FRACTION: Directive := [[DIGIT, DIGIT, DIGIT, DIGIT, DIGIT, DIGIT], [DIGIT, DIGIT, DIGIT, DIGIT, DIGIT],
                                [DIGIT, DIGIT, DIGIT, DIGIT], [DIGIT, DIGIT, DIGIT], [DIGIT, DIGIT], [DIGIT]]

  /** `%y%m%d%H%M%S`. */
  const COMPACT: seq<Directive> := [YEAR, MONTH, DAY, HOUR, MINUTE, SECOND]
  /** `%y%m%d%H%M%S.%f`. */
  const STAMP: seq<Directive> := COMPACT + [DOT, FRACTION]

  predicate AltMatches(s: string, pos: nat, a: Alternative) {
    pos + |a| <= |s| && forall j :: 0 <= j < |a| ==> InClass(a[j], s[pos + j])
  }

  /** What `re.match` captures for the directives `ds` from `pos` on, and
      where the match ends: the first alternative of the first directive
      with which the rest still matches, backtracking into the later
      alternatives when the rest fails. */
  function FirstPath(s: string, pos: nat, ds: seq<Directive>): (r: Option<(seq<string>, nat)>)
    requires pos <= |s|
    ensures r.Some? ==> |r.value.0| == |ds| && pos <= r.value.1 <= |s|
    decreases |ds|, 1, 0
  {
    if ds == [] then Some(([], pos)) else TryFrom(s, pos, ds, 0)
  }

  function TryFrom(s: string, pos: nat, ds: seq<Directive>, k: nat): (r: Option<(seq<string>, nat)>)
    requires pos <= |s| && ds != []
    ensures r.Some? ==> |r.value.0| == |ds| && pos <= r.value.1 <= |s|
    decreases |ds|, 0, |ds[0]| - k
  {
    if k >= |ds[0]| then None
    else
      var a := ds[0][k];
      if AltMatches(s, pos, a) then
        match FirstPath(s, pos + |a|, ds[1..])
        case Some((rest, end)) => Some(([s[pos..pos + |a|]] + rest, end))
        case None => TryFrom(s, pos, ds, k + 1)
      else TryFrom(s, pos, ds, k + 1)
  }

  /** `int()` of a captured field: its digits in order.  The one other
      character a field can hold, the leading space of `%d`, is skipped as
      `int()` skips surrounding whitespace. */
  function FieldValue(t: string): nat {
    if t == [] then 0
    else if IsDigit(t[|t| - 1]) then 10 * FieldValue(t[..|t| - 1]) + DigitValue(t[|t| - 1])
    else FieldValue(t[..|t| - 1])
  }

  /** `%f`: the captured digits padded with zeros on the right to six. */
  function FractionMicro(f: string): nat {
    FieldValue((f + "000000")[..6])
  }

  /** The fields `_strptime` builds from the six captured groups. */
  function Converted(ts: seq<string>, micro: nat): DateTime
    requires |ts| >= 6
  {
    DateTime(CenturyYear(FieldValue(ts[0])), FieldValue(ts[1]), FieldValue(ts[2]),
             FieldValue(ts[3]), FieldValue(ts[4]), FieldValue(ts[5]), micro)
  }

  /** The `datetime` constructor: ValueError (None) outside its ranges. */
  function Checked(d: DateTime): (r: Option<DateTime>)
    ensures r.Some? <==> ValidDateTime(d)
    ensures r.Some? ==> r.value == d
  {
    if ValidDateTime(d) then Some(d) else None
  }

  /** `datetime.strptime(s, "%y%m%d%H%M%S")`; None is its ValueError. */
  function ParseCompact(s: string): (r: Option<DateTime>)
    ensures r.Some? ==> ValidDateTime(r.value) && r.value.microsecond == 0
  {
    match FirstPath(s, 0, COMPACT)
    case None => None
    case Some((ts, end)) => if end != |s| then None else Checked(Converted(ts, 0))
  }

  /** `datetime.strptime(s, "%y%m%d%H%M%S.%f")`; None is its ValueError. */
  function ParseStamp(s: string): (r: Option<DateTime>)
    ensures r.Some? ==> ValidDateTime(r.value)
  {
    match FirstPath(s, 0, STAMP)
    case None => None
    case Some((ts, end)) => if end != |s| then None else Checked(Converted(ts, FractionMicro(ts[7])))
  }

  // ---------------------------------------------------------------------
  // Which path the match takes

  lemma {:induction false} SkipFailing(s: string, pos: nat, ds: seq<Directive>, j: nat, k: nat)
    requires pos <= |s| && ds != [] && j <= k <= |ds[0]|
    requires forall i :: j <= i < k ==> !AltMatches(s, pos, ds[0][i])
    ensures TryFrom(s, pos, ds, j) == TryFrom(s, pos, ds, k)
    decreases k - j
  {
    if j < k {
      SkipFailing(s, pos, ds, j + 1, k);
    }
  }

  /** When the first alternative that matches lets the rest match, the
      match takes it. */
  lemma TakeFirst(s: string, pos: nat, ds: seq<Directive>, k: nat)
    requires pos <= |s| && ds != [] && k < |ds[0]| && AltMatches(s, pos, ds[0][k])
    requires forall i :: 0 <= i < k ==> !AltMatches(s, pos, ds[0][i])
    requires FirstPath(s, pos + |ds[0][k]|, ds[1..]).Some?
    ensures FirstPath(s, pos, ds)
            == Some(([s[pos..pos + |ds[0][k]|]] + FirstPath(s, pos + |ds[0][k]|, ds[1..]).value.0,
                     FirstPath(s, pos + |ds[0][k]|, ds[1..]).value.1))
  {
    SkipFailing(s, pos, ds, 0, k);
  }

  predicate DigitPairAt(s: string, pos: nat) {
    pos + 2 <= |s| && IsDigit(s[pos]) && IsDigit(s[pos + 1])
  }

  function PairAt(s: string, pos: nat): nat
    requires DigitPairAt(s, pos)
  {
    10 * DigitValue(s[pos]) + DigitValue(s[pos + 1])
  }

  /** The directive's first matching alternative on two digits in range
      takes both digits. */
  predicate TakesPair(s: string, pos: nat, d: Directive) {
    exists k :: 0 <= k < |d| && |d[k]| == 2 && AltMatches(s, pos, d[k])
      && (forall i :: 0 <= i < k ==> !AltMatches(s, pos, d[i]))
  }

  lemma YearPair(s: string, pos: nat)
    requires DigitPairAt(s, pos)
    ensures TakesPair(s, pos, YEAR)
  {
    assert AltMatches(s, pos, YEAR[0]);
  }

  lemma MonthPair(s: string, pos: nat)
    requires DigitPairAt(s, pos) && 1 <= PairAt(s, pos) <= 12
    ensures TakesPair(s, pos, MONTH)
  {
    if s[pos] == '1' {
      assert AltMatches(s, pos, MONTH[0]);
    } else {
      assert AltMatches(s, pos, MONTH[1]);
    }
  }

  lemma DayPair(s: string, pos: nat)
    requires DigitPairAt(s, pos) && 1 <= PairAt(s, pos) <= 31
    ensures TakesPair(s, pos, DAY)
  {
    if s[pos] == '3' {
      assert AltMatches(s, pos, DAY[0]);
    } else if s[pos] == '1' || s[pos] == '2' {
      assert AltMatches(s, pos, DAY[1]);
    } else {
      assert AltMatches(s, pos, DAY[2]);
    }
  }

  lemma HourPair(s: string, pos: nat)
    requires DigitPairAt(s, pos) && PairAt(s, pos) < 24
    ensures TakesPair(s, pos, HOUR)
  {
    if s[pos] == '2' {
      assert AltMatches(s, pos, HOUR[0]);
    } else {
      assert AltMatches(s, pos, HOUR[1]);
    }
  }

  lemma MinutePair(s: string, pos: nat)
    requires DigitPairAt(s, pos) && PairAt(s, pos) < 60
    ensures TakesPair(s, pos, MINUTE)
  {
    assert AltMatches(s, pos, MINUTE[0]);
  }

  lemma SecondPair(s: string, pos: nat)
    requires DigitPairAt(s, pos) && PairAt(s, pos) < 60
    ensures TakesPair(s, pos, SECOND)
  {
    assert AltMatches(s, pos, SECOND[1]);
  }

  /** One step of the positional reading: a directive that takes the two
      digits at `pos`, followed by directives that match from `pos + 2`. */
  lemma PairStep(s: string, pos: nat, ds: seq<Directive>)
    requires pos + 2 <= |s| && ds != [] && TakesPair(s, pos, ds[0])
    requires FirstPath(s, pos + 2, ds[1..]).Some?
    ensures FirstPath(s, pos, ds)
            == Some(([s[pos..pos + 2]] + FirstPath(s, pos + 2, ds[1..]).value.0, FirstPath(s, pos + 2, ds[1..]).value.1))
  {
    var k :| 0 <= k < |ds[0]| && |ds[0][k]| == 2 && AltMatches(s, pos, ds[0][k])
             && (forall i :: 0 <= i < k ==> !AltMatches(s, pos, ds[0][i]));
    TakeFirst(s, pos, ds, k);
  }

  /** Year, month, day, hour and minute in the ranges their two-digit
      alternatives accept. */
  predicate LeadingPairsInRange(s: string) {
    && 10 <= |s| && (forall i :: 0 <= i < 10 ==> IsDigit(s[i]))
    && 1 <= PairAt(s, 2) <= 12 && 1 <= PairAt(s, 4) <= 31 && PairAt(s, 6) < 24 && PairAt(s, 8) < 60
  }

  /** All six fields of `%y%m%d%H%M%S` in those ranges. */
  predicate PairsInRange(s: string) {
    LeadingPairsInRange(s) && 12 <= |s| && IsDigit(s[10]) && IsDigit(s[11]) && PairAt(s, 10) < 60
  }

  lemma EarlyPairs(s: string, tail: seq<Directive>)
    requires LeadingPairsInRange(s) && FirstPath(s, 6, tail).Some?
    ensures FirstPath(s, 0, [YEAR, MONTH, DAY] + tail)
            == Some(([s[0..2], s[2..4], s[4..6]] + FirstPath(s, 6, tail).value.0, FirstPath(s, 6, tail).value.1))
  {
    var r := FirstPath(s, 6, tail).value;
    var d2 := [DAY] + tail;
    var d1 := [MONTH] + d2;
    var d0 := [YEAR] + d1;
    assert d2[1..] == tail && d1[1..] == d2 && d0[1..] == d1;
    DayPair(s, 4);
    PairStep(s, 4, d2);
    MonthPair(s, 2);
    PairStep(s, 2, d1);
    YearPair(s, 0);
    PairStep(s, 0, d0);
    assert [s[0..2]] + ([s[2..4]] + ([s[4..6]] + r.0)) == [s[0..2], s[2..4], s[4..6]] + r.0;
    assert d0 == [YEAR, MONTH, DAY] + tail;
  }

  lemma LatePairs(s: string, tail: seq<Directive>)
    requires LeadingPairsInRange(s) && FirstPath(s, 10, tail).Some?
    ensures FirstPath(s, 6, [HOUR, MINUTE] + tail)
            == Some(([s[6..8], s[8..10]] + FirstPath(s, 10, tail).value.0, FirstPath(s, 10, tail).value.1))
  {
    var r := FirstPath(s, 10, tail).value;
    var d4 := [MINUTE] + tail;
    var d3 := [HOUR] + d4;
    assert d4[1..] == tail && d3[1..] == d4;
    MinutePair(s, 8);
    PairStep(s, 8, d4);
    HourPair(s, 6);
    PairStep(s, 6, d3);
    assert [s[6..8]] + ([s[8..10]] + r.0) == [s[6..8], s[8..10]] + r.0;
    assert d3 == [HOUR, MINUTE] + tail;
  }

  /** On ten digits in range, `%y%m%d%H%M` followed by directives that
      match from the eleventh character captures two digits per field. */
  lemma LeadingPath(s: string, tail: seq<Directive>)
    requires LeadingPairsInRange(s) && FirstPath(s, 10, tail).Some?
    ensures FirstPath(s, 0, [YEAR, MONTH, DAY, HOUR, MINUTE] + tail)
            == Some(([s[0..2], s[2..4], s[4..6], s[6..8], s[8..10]] + FirstPath(s, 10, tail).value.0,
                     FirstPath(s, 10, tail).value.1))
  {
    var r := FirstPath(s, 10, tail).value;
    LatePairs(s, tail);
    EarlyPairs(s, [HOUR, MINUTE] + tail);
    assert [YEAR, MONTH, DAY] + ([HOUR, MINUTE] + tail) == [YEAR, MONTH, DAY, HOUR, MINUTE] + tail;
    assert [s[0..2], s[2..4], s[4..6]] + ([s[6..8], s[8..10]] + r.0) == [s[0..2], s[2..4], s[4..6], s[6..8], s[8..10]] + r.0;
  }

  /** On twelve digits in range, `%y%m%d%H%M%S` followed by any directives
      that match from the thirteenth character captures two digits per
      field. */
  lemma CompactPath(s: string, tail: seq<Directive>)
    requires PairsInRange(s) && FirstPath(s, 12, tail).Some?
    ensures FirstPath(s, 0, COMPACT + tail)
            == Some(([s[0..2], s[2..4], s[4..6], s[6..8], s[8..10], s[10..12]] + FirstPath(s, 12, tail).value.0,
                     FirstPath(s, 12, tail).value.1))
  {
    var r := FirstPath(s, 12, tail).value;
    var d5 := [SECOND] + tail;
    assert d5[1..] == tail;
    SecondPair(s, 10);
    PairStep(s, 10, d5);
    LeadingPath(s, d5);
    assert COMPACT + tail == [YEAR, MONTH, DAY, HOUR, MINUTE] + d5;
    assert [s[0..2], s[2..4], s[4..6], s[6..8], s[8..10]] + ([s[10..12]] + r.0)
        == [s[0..2], s[2..4], s[4..6], s[6..8], s[8..10], s[10..12]] + r.0;
  }

  /** `.%f` on a dot and one to six digits that end the string. */
  lemma FractionPath(s: string)
    requires 14 <= |s| <= 19 && s[12] == '.' && AllDigits(s[13..])
    ensures FirstPath(s, 12, [DOT, FRACTION]) == Some(([s[12..13], s[13..]], |s|))
  {
    var n := |s| - 13;
    var k := 6 - n;
    assert |FRACTION[k]| == n;
    assert AltMatches(s, 13, FRACTION[k]);
    var f := [FRACTION];
    assert f[1..] == [];
    assert FirstPath(s, |s|, []) == Some(([], |s|));
    assert FirstPath(s, 13 + |FRACTION[k]|, f[1..]) == Some(([], |s|));
    TakeFirst(s, 13, f, k);
    assert s[13..13 + n] == s[13..];
    assert [s[13..]] + [] == [s[13..]];
    assert FirstPath(s, 13, f) == Some(([s[13..]], |s|));
    var t := [DOT, FRACTION];
    assert t[1..] == f;
    assert AltMatches(s, 12, DOT[0]) && |t[0][0]| == 1;
    TakeFirst(s, 12, t, 0);
    assert [s[12..13]] + [s[13..]] == [s[12..13], s[13..]];
  }

  // ---------------------------------------------------------------------
  // A match that covers twelve characters is the positional one

  predicate PathVia(s: string, pos: nat, ds: seq<Directive>, i: nat, m: (seq<string>, nat))
    requires pos <= |s| && ds != [] && i < |ds[0]|
  {
    && AltMatches(s, pos, ds[0][i]) && |m.0| >= 1 && m.0[0] == s[pos..pos + |ds[0][i]|]
    && FirstPath(s, pos + |ds[0][i]|, ds[1..]) == Some((m.0[1..], m.1))
  }

  /** A match takes some alternative of the first directive and then
      matches the remaining directives after it. */
  lemma {:induction false} PathStep(s: string, pos: nat, ds: seq<Directive>, k: nat)
    requires pos <= |s| && ds != [] && TryFrom(s, pos, ds, k).Some?
    ensures exists i :: k <= i < |ds[0]| && PathVia(s, pos, ds, i, TryFrom(s, pos, ds, k).value)
    decreases |ds[0]| - k
  {
    var a := ds[0][k];
    if AltMatches(s, pos, a) && FirstPath(s, pos + |a|, ds[1..]).Some? {
      var m := TryFrom(s, pos, ds, k).value;
      assert m.0[1..] == FirstPath(s, pos + |a|, ds[1..]).value.0;
      assert PathVia(s, pos, ds, k, m);
    } else {
      PathStep(s, pos, ds, k + 1);
    }
  }

  /** Every alternative of every directive is at most two characters wide. */
  predicate Narrow(ds: seq<Directive>) {
    forall j :: 0 <= j < |ds| ==> forall i :: 0 <= i < |ds[j]| ==> |ds[j][i]| <= 2
  }

  lemma {:induction false} PathBound(s: string, pos: nat, ds: seq<Directive>)
    requires pos <= |s| && Narrow(ds) && FirstPath(s, pos, ds).Some?
    ensures FirstPath(s, pos, ds).value.1 <= pos + 2 * |ds|
    decreases |ds|
  {
    if ds != [] {
      PathStep(s, pos, ds, 0);
      var i :| 0 <= i < |ds[0]| && PathVia(s, pos, ds, i, FirstPath(s, pos, ds).value);
      assert Narrow(ds[1..]) by {
        forall j | 0 <= j < |ds| - 1
          ensures forall i :: 0 <= i < |ds[1..][j]| ==> |ds[1..][j][i]| <= 2
        {
          assert ds[1..][j] == ds[j + 1];
        }
      }
      PathBound(s, pos + |ds[0][i]|, ds[1..]);
    }
  }

  lemma {:induction false} FullPathIsPositional(s: string, pos: nat, ds: seq<Directive>)
    requires pos <= |s| && Narrow(ds) && FirstPath(s, pos, ds).Some?
    requires FirstPath(s, pos, ds).value.1 == pos + 2 * |ds|
    ensures forall j :: 0 <= j < |ds| ==> pos + 2 * j + 2 <= |s| && FirstPath(s, pos, ds).value.0[j] == s[pos + 2 * j..pos + 2 * j + 2]
    decreases |ds|
  {
    if ds != [] {
      var m := FirstPath(s, pos, ds).value;
      PathStep(s, pos, ds, 0);
      var i :| 0 <= i < |ds[0]| && PathVia(s, pos, ds, i, m);
      var w := |ds[0][i]|;
      assert Narrow(ds[1..]) by {
        forall j | 0 <= j < |ds| - 1
          ensures forall i :: 0 <= i < |ds[1..][j]| ==> |ds[1..][j][i]| <= 2
        {
          assert ds[1..][j] == ds[j + 1];
        }
      }
      PathBound(s, pos + w, ds[1..]);
      assert w == 2;
      FullPathIsPositional(s, pos + 2, ds[1..]);
      forall j | 0 <= j < |ds|
        ensures pos + 2 * j + 2 <= |s| && m.0[j] == s[pos + 2 * j..pos + 2 * j + 2]
      {
        if j > 0 {
          assert m.0[j] == m.0[1..][j - 1];
        }
      }
    }
  }

  lemma CompactNarrow()
    ensures Narrow(COMPACT)
  {
  }

  // ---------------------------------------------------------------------
  // Field values

  lemma {:induction false} FieldValueOfDigits(t: string)
    requires AllDigits(t)
    ensures FieldValue(t) == DecimalValue(t)
  {
    if t != [] {
      FieldValueOfDigits(t[..|t| - 1]);
    }
  }

  lemma {:induction false} ZeroRun(z: string)
    requires forall i :: 0 <= i < |z| ==> z[i] == '0'
    ensures AllDigits(z) && DecimalValue(z) == 0
  {
    if z != [] {
      ZeroRun(z[..|z| - 1]);
    }
  }

  /** Padding `%f` on the right is scaling by the missing powers of ten. */
  lemma PadValue(f: string)
    requires 1 <= |f| <= 6 && AllDigits(f)
    ensures FractionMicro(f) == Microseconds(f)
  {
    var z := "000000"[..6 - |f|];
    assert (f + "000000")[..6] == f + z;
    ZeroRun(z);
    DecimalValueAppend(f, z);
    FieldValueOfDigits(f + z);
  }

  lemma PairText(s: string, pos: nat)
    requires DigitPairAt(s, pos)
    ensures AllDigits(s[pos..pos + 2]) && FieldValue(s[pos..pos + 2]) == DecimalValue(s[pos..pos + 2]) == PairAt(s, pos)
  {
    var t := s[pos..pos + 2];
    PairValue(t);
    FieldValueOfDigits(t);
  }

  /** The six captured pairs convert to the positional fields. */
  lemma ConvertedPairs(s: string, micro: nat)
    requires |s| == 12 && AllDigits(s)
    ensures Converted([s[0..2], s[2..4], s[4..6], s[6..8], s[8..10], s[10..12]], micro) == FieldsOf(s, micro)
  {
    FieldValueOfDigits(s[0..2]);
    FieldValueOfDigits(s[2..4]);
    FieldValueOfDigits(s[4..6]);
    FieldValueOfDigits(s[6..8]);
    FieldValueOfDigits(s[8..10]);
    FieldValueOfDigits(s[10..12]);
  }

  lemma RangesOfValid(s: string, micro: nat)
    requires |s| == 12 && AllDigits(s) && ValidDateTime(FieldsOf(s, micro))
    ensures PairsInRange(s)
  {
    PairText(s, 2);
    PairText(s, 4);
    PairText(s, 6);
    PairText(s, 8);
    PairText(s, 10);
  }

  // ---------------------------------------------------------------------
  // What the two parsers accept

  /** On twelve digits, `strptime(s, "%y%m%d%H%M%S")` succeeds exactly
      when the positional two-digit fields form a valid date and time, and
      then returns them. */
  lemma CompactIsPositional(s: string)
    requires |s| == 12 && AllDigits(s)
    ensures ParseCompact(s) == Checked(FieldsOf(s, 0))
  {
    if ValidDateTime(FieldsOf(s, 0)) {
      RangesOfValid(s, 0);
      CompactPath(s, []);
      assert COMPACT + [] == COMPACT;
      ConvertedPairs(s, 0);
    } else if ParseCompact(s).Some? {
      var m := FirstPath(s, 0, COMPACT).value;
      CompactNarrow();
      FullPathIsPositional(s, 0, COMPACT);
      assert m.0 == [s[0..2], s[2..4], s[4..6], s[6..8], s[8..10], s[10..12]];
      ConvertedPairs(s, 0);
      assert false;
    }
  }

  /** The layout the scanner's records use: twelve digits forming a valid
      date and time, a dot and one to six digits is read positionally. */
  lemma StampIsPositional(s: string)
    requires 14 <= |s| <= 19 && AllDigits(s[..12]) && s[12] == '.' && AllDigits(s[13..])
    requires ValidDateTime(FieldsOf(s[..12], Microseconds(s[13..])))
    ensures ParseStamp(s) == Some(FieldsOf(s[..12], Microseconds(s[13..])))
  {
    var p := s[..12];
    var micro := Microseconds(s[13..]);
    RangesOfValid(p, micro);
    assert PairsInRange(s) by {
      assert forall i :: 0 <= i < 12 ==> s[i] == p[i];
    }
    FractionPath(s);
    CompactPath(s, [DOT, FRACTION]);
    assert p[0..2] == s[0..2] && p[2..4] == s[2..4] && p[4..6] == s[4..6];
    assert p[6..8] == s[6..8] && p[8..10] == s[8..10] && p[10..12] == s[10..12];
    ConvertedPairs(p, micro);
    PadValue(s[13..]);
  }

  predicate ShortStamp(s: string) {
    |s| == 13 && (forall i :: 0 <= i < 11 ==> IsDigit(s[i])) && s[11] == '.' && IsDigit(s[12])
  }

  /** `%S.%f` on a digit, a dot and a digit that end the string: the
      two-digit alternatives of `%S` fail on the dot. */
  lemma ShortTail(s: string)
    requires ShortStamp(s)
    ensures FirstPath(s, 10, [SECOND, DOT, FRACTION]) == Some(([s[10..11], s[11..12], s[12..13]], 13))
  {
    var d6 := [DOT, FRACTION];
    var d5 := [SECOND] + d6;
    var f := [FRACTION];
    assert d5[1..] == d6 && d6[1..] == f && f[1..] == [];
    assert FirstPath(s, 13, []) == Some(([], 13));
    assert AltMatches(s, 12, FRACTION[5]) && |FRACTION[5]| == 1;
    assert FirstPath(s, 12 + |f[0][5]|, f[1..]) == Some(([], 13));
    TakeFirst(s, 12, f, 5);
    assert [s[12..13]] + [] == [s[12..13]];
    assert FirstPath(s, 12, f) == Some(([s[12..13]], 13));
    assert AltMatches(s, 11, DOT[0]) && |d6[0][0]| == 1;
    TakeFirst(s, 11, d6, 0);
    assert [s[11..12]] + [s[12..13]] == [s[11..12], s[12..13]];
    assert FirstPath(s, 11, d6) == Some(([s[11..12], s[12..13]], 13));
    assert !InClass(SECOND[0][1], s[11]) && !InClass(SECOND[1][1], s[11]);
    assert !AltMatches(s, 10, SECOND[0]) && !AltMatches(s, 10, SECOND[1]) && AltMatches(s, 10, SECOND[2]);
    assert |d5[0][2]| == 1;
    assert FirstPath(s, 10 + |d5[0][2]|, d5[1..]) == Some(([s[11..12], s[12..13]], 13));
    TakeFirst(s, 10, d5, 2);
    assert [s[10..11]] + [s[11..12], s[12..13]] == [s[10..11], s[11..12], s[12..13]];
    assert d5 == [SECOND, DOT, FRACTION];
  }

  lemma ShortPath(s: string)
    requires ShortStamp(s) && LeadingPairsInRange(s)
    ensures FirstPath(s, 0, STAMP) == Some(([s[0..2], s[2..4], s[4..6], s[6..8], s[8..10], s[10..11], s[11..12], s[12..13]], 13))
  {
    ShortTail(s);
    LeadingPath(s, [SECOND, DOT, FRACTION]);
    assert STAMP == [YEAR, MONTH, DAY, HOUR, MINUTE] + [SECOND, DOT, FRACTION];
    assert [s[0..2], s[2..4], s[4..6], s[6..8], s[8..10]] + [s[10..11], s[11..12], s[12..13]]
        == [s[0..2], s[2..4], s[4..6], s[6..8], s[8..10], s[10..11], s[11..12], s[12..13]];
  }

  /** `%S` also accepts a single digit: on eleven digits, a dot and one
      more digit the match reads five two-digit fields, a one-digit second
      and a one-digit fraction. */
  lemma OneDigitSecond(s: string)
    requires ShortStamp(s) && LeadingPairsInRange(s)
    ensures ParseStamp(s) == Checked(DateTime(CenturyYear(PairAt(s, 0)), PairAt(s, 2), PairAt(s, 4), PairAt(s, 6),
                                               PairAt(s, 8), DigitValue(s[10]), 100000 * DigitValue(s[12])))
  {
    ShortPath(s);
    PairText(s, 0);
    PairText(s, 2);
    PairText(s, 4);
    PairText(s, 6);
    PairText(s, 8);
    OneDigitText(s[10..11]);
    OneDigitText(s[12..13]);
    PadValue(s[12..13]);
  }

  lemma OneDigitText(t: string)
    requires |t| == 1 && IsDigit(t[0])
    ensures AllDigits(t) && FieldValue(t) == DecimalValue(t) == DigitValue(t[0])
  {
    assert t[..0] == [];
  }

  /** The record stamp `25111200000.0` is 2025-11-12 00:00:00. */
  lemma ElevenDigitStamp()
    ensures ParseStamp("25111200000.0") == Some(DateTime(2025, 11, 12, 0, 0, 0, 0))
  {
    var s := "25111200000.0";
    OneDigitSecond(s);
  }

  /** `d.strftime("%Y%m%d-%H%M%S")`. */
  function FormatCompact(d: DateTime): string
    requires d.year >= 0
  {
    FourDigits(d.year) + TwoDigits(d.month) + TwoDigits(d.day) + "-"
      + TwoDigits(d.hour) + TwoDigits(d.minute) + TwoDigits(d.second)
  }

  /** The `%Y` field of a `%y` year: the century digits, then the two digits read. */
  lemma YearDigits(t: string)
    requires |t| == 2 && AllDigits(t)
    ensures DecimalValue(t) < 100
    ensures FourDigits(CenturyYear(DecimalValue(t))) == (if DecimalValue(t) < 69 then "20" else "19") + t
  {
    TwoDigitsOfValue(t);
    var yy := DecimalValue(t);
    var c := if yy < 69 then 20 else 19;
    var y := CenturyYear(yy);
    assert y == 100 * c + yy by {
      assert yy < 69 <==> yy <= 68;
    }
    SplitCentury(c, yy);
    var hi, lo := y / 100, y % 100;
    assert hi == c && lo == yy;
    assert FourDigits(y) == TwoDigits(hi) + TwoDigits(lo);
    CenturyText(c);
  }

  lemma CenturyText(c: nat)
    requires c == 19 || c == 20
    ensures TwoDigits(c) == (if c == 20 then "20" else "19")
  {
  }

  /** Formatting a parsed start date reproduces the date and time tokens,
      with the century of the `%y` rule written in front. */
  lemma FormatOfParsed(s: string)
    requires |s| == 12 && AllDigits(s)
    ensures var f := FormatCompact(FieldsOf(s, 0));
            var yy := DecimalValue(s[0..2]);
            f == (if yy < 69 then "20" else "19") + s[0..6] + "-" + s[6..12]
  {
    var d := FieldsOf(s, 0);
    YearDigits(s[0..2]);
    TwoDigitsOfValue(s[2..4]);
    TwoDigitsOfValue(s[4..6]);
    TwoDigitsOfValue(s[6..8]);
    TwoDigitsOfValue(s[8..10]);
    TwoDigitsOfValue(s[10..12]);
    JoinDate(if DecimalValue(s[0..2]) < 69 then "20" else "19", s,
             FourDigits(d.year), TwoDigits(d.month), TwoDigits(d.day),
             TwoDigits(d.hour), TwoDigits(d.minute), TwoDigits(d.second));
  }

  lemma JoinDate(century: string, s: string, y: string, mo: string, d: string, h: string, mi: string, se: string)
    requires |s| == 12
    requires y == century + s[0..2] && mo == s[2..4] && d == s[4..6]
    requires h == s[6..8] && mi == s[8..10] && se == s[10..12]
    ensures y + mo + d + "-" + h + mi + se == century + s[0..6] + "-" + s[6..12]
  {
    assert s[0..6] == s[0..2] + s[2..4] + s[4..6];
    assert s[6..12] == s[6..8] + s[8..10] + s[10..12];
  }
}
