/** Bytes, ASCII digits and decimal text: what `int()` and f-string
    formatting do with the digit runs the regular expressions capture. */
module Bytes {

  type byte = b: int | 0 <= b < 256

  /** Python's `\d` on bytes patterns; on str patterns the model takes the
      same ASCII class. */
  predicate IsDigit(c: char) { '0' <= c <= '9' }

  predicate AllDigits(s: string) { forall i :: 0 <= i < |s| ==> IsDigit(s[i]) }

  predicate IsDigitByte(b: byte) { 0x30 <= b <= 0x39 }

  predicate AllDigitBytes(s: seq<byte>) { forall i :: 0 <= i < |s| ==> IsDigitByte(s[i]) }

  /** The characters of bytes below 0x80.  For such bytes this is what
      `bytes.decode()` returns (lemma Utf8.DecodeAscii). */
  function AsciiChars(s: seq<byte>): (r: string)
    requires forall i :: 0 <= i < |s| ==> s[i] < 0x80
    ensures |r| == |s|
    ensures forall i :: 0 <= i < |s| ==> r[i] as int == s[i]
  {
    seq(|s|, i requires 0 <= i < |s| => s[i] as char)
  }

  function DigitValue(c: char): (d: nat)
    requires IsDigit(c)
    ensures d < 10
  {
    c as int - '0' as int
  }

  function Digit(d: nat): (c: char)
    requires d < 10
    ensures IsDigit(c) && DigitValue(c) == d
  {
    ('0' as int + d) as char
  }

  function Pow10(n: nat): (p: nat)
    ensures p >= 1
  {
    if n == 0 then 1 else 10 * Pow10(n - 1)
  }

  /** `int(s)` for a run of ASCII digits (leading zeros allowed). */
  function DecimalValue(s: string): nat
    requires AllDigits(s)
  {
    if s == [] then 0 else 10 * DecimalValue(s[..|s| - 1]) + DigitValue(s[|s| - 1])
  }

  lemma {:induction false} DecimalValueBound(s: string)
    requires AllDigits(s)
    ensures DecimalValue(s) < Pow10(|s|)
  {
    if s != [] {
      DecimalValueBound(s[..|s| - 1]);
    }
  }

  /** Reading a digit run split in two: the high part is shifted by the
      length of the low part. */
  lemma {:induction false} DecimalValueAppend(a: string, b: string)
    requires AllDigits(a) && AllDigits(b)
    ensures AllDigits(a + b)
    ensures DecimalValue(a + b) == DecimalValue(a) * Pow10(|b|) + DecimalValue(b)
  {
    if b == [] {
      assert a + b == a;
    } else {
      var b' := b[..|b| - 1];
      var ab := a + b;
      assert ab[..|ab| - 1] == a + b';
      assert ab[|ab| - 1] == b[|b| - 1];
      DecimalValueAppend(a, b');
      var hi, lo, d, p := DecimalValue(a), DecimalValue(b'), DigitValue(b[|b| - 1]), Pow10(|b'|);
      assert DecimalValue(ab) == 10 * DecimalValue(a + b') + d;
      assert DecimalValue(b) == 10 * lo + d;
      assert Pow10(|b|) == 10 * p;
      ShiftByTen(hi, p);
    }
  }

  lemma ShiftByTen(hi: nat, p: nat)
    ensures hi * (10 * p) == 10 * (hi * p)
  {
  }

  /** `str(n)` for a natural number: decimal digits without leading zeros. */
  function NatToString(n: nat): (s: string)
    ensures AllDigits(s) && |s| >= 1
    ensures |s| > 1 ==> s[0] != '0'
  {
    if n < 10 then [Digit(n)] else NatToString(n / 10) + [Digit(n % 10)]
  }

  /** `str(n)` is read back by `int()`. */
  lemma {:induction false} NatToStringRoundTrip(n: nat)
    ensures DecimalValue(NatToString(n)) == n
  {
    if n >= 10 {
      var s := NatToString(n);
      assert s[..|s| - 1] == NatToString(n / 10);
      NatToStringRoundTrip(n / 10);
    }
  }

  /** `str(i)` (and an f-string's `{i}`) for any integer. */
  function IntToString(i: int): (s: string)
    ensures |s| >= 1
    ensures i >= 0 <==> s[0] != '-'
  {
    if i >= 0 then NatToString(i) else "-" + NatToString(-i)
  }

  /** `int()` on an optional minus sign followed by digits. */
  function ParseInt(s: string): (r: int)
    requires |s| >= 1
    requires (s[0] == '-' && AllDigits(s[1..])) || AllDigits(s)
  {
    if s[0] == '-' then -(DecimalValue(s[1..]) as int) else DecimalValue(s)
  }

  lemma IntToStringRoundTrip(i: int)
    ensures var s := IntToString(i);
            ((s[0] == '-' && AllDigits(s[1..])) || AllDigits(s)) && ParseInt(s) == i
  {
    if i >= 0 {
      NatToStringRoundTrip(i);
    } else {
      assert IntToString(i)[1..] == NatToString(-i);
      NatToStringRoundTrip(-i);
    }
  }
}
