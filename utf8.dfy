/** Strict UTF-8 decoding, as `bytes.decode()` performs it: a byte string
    decodes iff it is a concatenation of well-formed sequences (The Unicode
    Standard, section 3.9, table 3-7); otherwise UnicodeDecodeError. */
module Utf8 {
  import opened Errors
  import opened Bytes

  predicate IsCont(b: byte) { 0x80 <= b <= 0xBF }

  /** The first code point of `s` and the number of bytes it takes, or None
      when `s` does not start with a well-formed sequence. */
  function DecodeFirst(s: seq<byte>): (r: Option<(char, nat)>)
    requires |s| > 0
    ensures r.Some? ==> 1 <= r.value.1 <= |s| && r.value.1 <= 4
    ensures r.Some? ==> (r.value.1 == 1 <==> s[0] < 0x80)
    ensures r.Some? && s[0] < 0x80 ==> r.value.0 as int == s[0]
  {
    var b0: int := s[0];
    if b0 < 0x80 then
      Some((b0 as char, 1))
    else if 0xC2 <= b0 <= 0xDF then
      if |s| >= 2 && IsCont(s[1]) then
        var b1: int := s[1];
        Some((((b0 - 0xC0) * 64 + (b1 - 0x80)) as char, 2))
      else None
    else if 0xE0 <= b0 <= 0xEF then
      var lo := if b0 == 0xE0 then 0xA0 else 0x80;
      var hi := if b0 == 0xED then 0x9F else 0xBF;
      if |s| >= 3 && lo <= s[1] <= hi && IsCont(s[2]) then
        var b1: int, b2: int := s[1], s[2];
        Some((((b0 - 0xE0) * 4096 + (b1 - 0x80) * 64 + (b2 - 0x80)) as char, 3))
      else None
    else if 0xF0 <= b0 <= 0xF4 then
      var lo := if b0 == 0xF0 then 0x90 else 0x80;
      var hi := if b0 == 0xF4 then 0x8F else 0xBF;
      if |s| >= 4 && lo <= s[1] <= hi && IsCont(s[2]) && IsCont(s[3]) then
        var b1: int, b2: int, b3: int := s[1], s[2], s[3];
        Some((((b0 - 0xF0) * 262144 + (b1 - 0x80) * 4096 + (b2 - 0x80) * 64 + (b3 - 0x80)) as char, 4))
      else None
    else
      None
  }

  /** `s.decode()`; None stands for UnicodeDecodeError. */
  function Decode(s: seq<byte>): (r: Option<string>)
    ensures r.Some? ==> |r.value| <= |s|
    decreases |s|
  {
    if s == [] then Some([])
    else match DecodeFirst(s)
      case None => None
      case Some((c, n)) =>
        match Decode(s[n..])
        case None => None
        case Some(rest) => Some([c] + rest)
  }

  /** Pure ASCII always decodes, one character per byte. */
  lemma {:induction false} DecodeAscii(s: seq<byte>)
    requires forall i :: 0 <= i < |s| ==> s[i] < 0x80
    ensures Decode(s) == Some(AsciiChars(s))
  {
    if s != [] {
      DecodeAscii(s[1..]);
      assert AsciiChars(s) == [s[0] as char] + AsciiChars(s[1..]);
    }
  }

  /** A continuation byte can never start a decodable string. */
  lemma LeadingContinuationFails(s: seq<byte>)
    requires |s| > 0 && IsCont(s[0])
    ensures Decode(s).None?
  {
  }
}
