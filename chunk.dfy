/** One 130-byte chunk of the metadata track, as `_parseCoordinate` reads
    it: only the first 50 bytes are searched for the record pattern
    `(\d{8})([AV])(.{21})(.*)`; the eight digits are the record index, the
    remainder (up to the first newline) carries the timestamp behind four
    leading characters, and an `A` status adds a latitude/longitude fix. */
module Chunk {
  import opened Errors
  import opened Bytes
  import opened Utf8
  import opened Timestamps
  import opened Coordinates

  /** `chunk[:50]`: the part of a chunk the record pattern is matched in. */
  const WINDOW := 50

  /** Digits, status and coordinate group: the shortest possible match. */
  const BASE_LENGTH := 30

  /** `(index, datestamp, coordinate)`; `fix` is None for a `V` record. */
  datatype Record = Record(index: nat, stamp: DateTime, fix: Option<(Coord, Coord)>)

  /** How one chunk ends: a record, the chunk-local UnicodeDecodeError the
      scanners skip, or an exception that ends the whole scan. */
  datatype ChunkOutcome = Parsed(rec: Record) | Undecodable | Fatal(error: Failure)

  function Window(chunk: seq<byte>): (w: seq<byte>)
    ensures |w| == if |chunk| < WINDOW then |chunk| else WINDOW
    ensures w == chunk[..|w|]
  {
    if |chunk| < WINDOW then chunk else chunk[..WINDOW]
  }

  predicate IsStatus(b: byte) { b == 'A' as int || b == 'V' as int }

  /** `(\d{8})([AV])(.{21})` matches at `i`; `.` is any byte but a newline,
      and the trailing `(.*)` can always match the empty string. */
  predicate BaseMatchAt(w: seq<byte>, i: nat) {
    && i + BASE_LENGTH <= |w|
    && AllDigitBytes(w[i..i + 8])
    && IsStatus(w[i + 8])
    && forall j :: i + 9 <= j < i + BASE_LENGTH ==> w[j] != '\n' as int
  }

  /** The leftmost match at or after `from`, which `findall(...)[0]` picks. */
  function FirstBaseMatch(w: seq<byte>, from: nat): (r: Option<nat>)
    ensures r.Some? ==> from <= r.value && BaseMatchAt(w, r.value)
    ensures r.Some? ==> forall j :: from <= j < r.value ==> !BaseMatchAt(w, j)
    ensures r.None? ==> forall j :: from <= j ==> !BaseMatchAt(w, j)
    decreases |w| - from
  {
    if from + BASE_LENGTH > |w| then None
    else if BaseMatchAt(w, from) then Some(from)
    else FirstBaseMatch(w, from + 1)
  }

  /** Where the greedy `(.*)` started at `from` stops: the first newline or
      the end of the window. */
  function LineEnd(w: seq<byte>, from: nat): (e: nat)
    requires from <= |w|
    ensures from <= e <= |w|
    ensures forall j :: from <= j < e ==> w[j] != '\n' as int
    ensures e < |w| ==> w[e] == '\n' as int
    decreases |w| - from
  {
    if from == |w| || w[from] == '\n' as int then from else LineEnd(w, from + 1)
  }

  /** The fourth group of the match at `i`. */
  function Remainder(w: seq<byte>, i: nat): seq<byte>
    requires BaseMatchAt(w, i)
  {
    w[i + BASE_LENGTH..LineEnd(w, i + BASE_LENGTH)]
  }

  /** `text[4:]`: empty when the text is shorter than four characters. */
  function DropFour(text: string): string {
    if |text| < 4 then [] else text[4..]
  }

  /** `_parseCoordinate(chunk)`.  The steps run in the source's order: the
      record pattern (IndexError), the index, the remainder's UTF-8 decoding
      (the only chunk-local failure), the timestamp (ValueError), then for
      an `A` record the coordinate group (IndexError or ValueError). */
  function DecodeChunk(chunk: seq<byte>): (o: ChunkOutcome)
    ensures FirstBaseMatch(Window(chunk), 0).None? ==> o == Fatal(IndexError)
    ensures |chunk| < BASE_LENGTH ==> o == Fatal(IndexError)
    ensures o.Fatal? ==> o.error in {IndexError, ValueError}
  {
    var w := Window(chunk);
    match FirstBaseMatch(w, 0)
    case None => Fatal(IndexError)
    case Some(i) => DecodeMatch(w, i)
  }

  /** `_parseCoordinate` past the pattern search, for the match at `i`. */
  function DecodeMatch(w: seq<byte>, i: nat): (o: ChunkOutcome)
    requires BaseMatchAt(w, i)
    ensures o.Fatal? ==> o.error in {IndexError, ValueError}
  {
    var index := DecimalValue(DigitText(w[i..i + 8]));
    match Decode(Remainder(w, i))
    case None => Undecodable
    case Some(text) =>
      match ParseStamp(DropFour(text))
      case None => Fatal(ValueError)
      case Some(stamp) =>
        if w[i + 8] == 'V' as int then Parsed(Record(index, stamp, None))
        else
          match ParseLatLon(w[i + 9..i + BASE_LENGTH])
          case Err(e) => Fatal(e)
          case Ok(fix) => Parsed(Record(index, stamp, Some(fix)))
  }

  /** What a chunk whose leftmost match sits at `i` turns into: the index is
      the eight digits; the chunk is undecodable exactly when its remainder
      is not UTF-8; a remainder whose stamp `strptime` rejects raises
      ValueError; a `V` record carries no fix, and an `A` record carries the
      fix of its coordinate group or raises that group's error. */
  lemma DecodeAtMatch(chunk: seq<byte>, i: nat)
    requires FirstBaseMatch(Window(chunk), 0) == Some(i)
    ensures var w, o := Window(chunk), DecodeChunk(chunk);
            var index := DecimalValue(DigitText(w[i..i + 8]));
            && (o.Undecodable? <==> Decode(Remainder(w, i)).None?)
            && (o.Parsed? ==> o.rec.index == index)
            && (o.Parsed? ==> (o.rec.fix.None? <==> w[i + 8] == 'V' as int))
            && (o.Parsed? ==> ParseStamp(DropFour(Decode(Remainder(w, i)).value)) == Some(o.rec.stamp))
            && (o.Parsed? && w[i + 8] == 'A' as int ==> ParseLatLon(w[i + 9..i + BASE_LENGTH]) == Ok(o.rec.fix.value))
            && (Decode(Remainder(w, i)).Some? ==>
                  var stamp := ParseStamp(DropFour(Decode(Remainder(w, i)).value));
                  && (stamp.None? ==> o == Fatal(ValueError))
                  && (stamp.Some? && w[i + 8] == 'V' as int ==> o == Parsed(Record(index, stamp.value, None)))
                  && (stamp.Some? && w[i + 8] == 'A' as int ==>
                        o == match ParseLatLon(w[i + 9..i + BASE_LENGTH])
                             case Err(e) => Fatal(e)
                             case Ok(fix) => Parsed(Record(index, stamp.value, Some(fix)))))
  {
    var w := Window(chunk);
    assert DecodeChunk(chunk) == DecodeMatch(w, i);
  }

  /** Bytes past the fiftieth never influence the outcome. */
  lemma OnlyWindowMatters(c1: seq<byte>, c2: seq<byte>)
    requires |c1| >= WINDOW && |c2| >= WINDOW && c1[..WINDOW] == c2[..WINDOW]
    ensures DecodeChunk(c1) == DecodeChunk(c2)
  {
    assert Window(c1) == Window(c2);
  }

  /** A chunk of spaces holds no record: the pattern needs digits. */
  lemma BlankChunkFails(chunk: seq<byte>)
    requires forall j :: 0 <= j < |chunk| ==> chunk[j] == ' ' as int
    ensures DecodeChunk(chunk) == Fatal(IndexError)
  {
    var w := Window(chunk);
    forall i: nat
      ensures !BaseMatchAt(w, i)
    {
      if i + BASE_LENGTH <= |w| {
        assert w[i..i + 8][0] == ' ' as int;
      }
    }
  }

  /** The remainder of a record is at most the twenty bytes left in the
      window, and an ASCII remainder is never a UnicodeDecodeError. */
  lemma AsciiRemainderDecodes(chunk: seq<byte>, i: nat)
    requires FirstBaseMatch(Window(chunk), 0) == Some(i)
    requires forall j :: 0 <= j < |Remainder(Window(chunk), i)| ==> Remainder(Window(chunk), i)[j] < 0x80
    ensures |Remainder(Window(chunk), i)| <= WINDOW - BASE_LENGTH
    ensures !DecodeChunk(chunk).Undecodable?
  {
    DecodeAscii(Remainder(Window(chunk), i));
  }
}
