/** The metadata track and the two ways of scanning it.  The track starts
    at the format's seek offset with the magic `CSMDAT`, 34 further header
    bytes, then 130-byte chunks up to a chunk of 130 spaces.  The scan
    functions here are the specification the `Mp4File` scanner loops are
    proved against; the lemmas relate them to a chunk-by-chunk reading of
    the track. */
module Track {
  import opened Errors
  import opened Chunk
  import opened FormatRegistry
  import opened Bytes

  const CHUNK_SIZE := 130
  const HEADER_SKIP := 34

  /** `b"CSMDAT"`. */
  const MAGIC: seq<byte> := [0x43, 0x53, 0x4D, 0x44, 0x41, 0x54]

  /** `chunk == b" " * CHUNKSIZE`, the end-of-track marker. */
  predicate IsSentinel(chunk: seq<byte>) {
    |chunk| == CHUNK_SIZE && forall j :: 0 <= j < |chunk| ==> chunk[j] == ' ' as int
  }

  /** A chunk decoder as the scanners rely on it: a chunk too short for a
      record raises IndexError, and a chunk that raises raises IndexError or
      ValueError.  `_parseCoordinate` is one (`Chunk.DecodeChunk`), and the
      scanners below are stated for any. */
  type Decoder = f: seq<byte> -> ChunkOutcome
    | forall c :: (|c| < BASE_LENGTH ==> f(c) == Fatal(IndexError))
                  && (f(c).Fatal? ==> f(c).error in {IndexError, ValueError})
    witness (c: seq<byte>) => Fatal(IndexError)

  /** Where `file.read(n)` with a count `n >= 0` leaves a cursor at `pos`
      in a file of `size` bytes: reads stop short at the end. */
  function ReadEnd(size: nat, pos: nat, n: nat): (e: nat)
    requires pos <= size
    ensures pos <= e <= size
    ensures pos + n <= size ==> e == pos + n
    ensures pos + n > size ==> e == size
  {
    if pos + n > size then size else pos + n
  }

  /** `file.read(n)` on the `BufferedReader` that `open(..., mode="rb")`
      returns, for any count: below -1 it raises ValueError without moving
      the cursor, -1 reads to the end, otherwise as `ReadEnd`. */
  function Advance(size: nat, pos: nat, n: int): (r: Result<nat>)
    requires pos <= size
    ensures r.Err? <==> n < -1
    ensures r.Err? ==> r.error == ValueError
    ensures r.Ok? ==> pos <= r.value <= size
    ensures n == -1 ==> r == Ok(size)
    ensures n >= 0 ==> r == Ok(ReadEnd(size, pos, n))
  {
    if n < -1 then Err(ValueError)
    else if n == -1 then Ok(size)
    else Ok(ReadEnd(size, pos, n))
  }

  /** A count that is a negative multiple of `CHUNK_SIZE` is rejected. */
  lemma NegativeChunksRejected(size: nat, pos: nat, k: int)
    requires pos <= size
    ensures Advance(size, pos, CHUNK_SIZE * k).Err? <==> k < 0
  {
  }

  /** `count`, `invalid_count` and `result` of a scan. */
  datatype Tally = Tally(records: seq<Record>, count: nat, invalid: nat)

  const EMPTY := Tally([], 0, 0)

  /** A record without a fix is invalid. */
  predicate IsInvalid(o: ChunkOutcome) { o.Parsed? && o.rec.fix.None? }

  /** The chunk ends up in the result: a record, valid or `includeInvalid`. */
  predicate Kept(o: ChunkOutcome, inc: bool) { o.Parsed? && (o.rec.fix.Some? || inc) }

  /** One non-fatal chunk: it is counted, invalid records are counted, and
      kept records are appended. */
  function Absorb(t: Tally, o: ChunkOutcome, inc: bool): (u: Tally)
    requires !o.Fatal?
    ensures u.count == t.count + 1
    ensures u.invalid == t.invalid + (if IsInvalid(o) then 1 else 0)
    ensures u.records == t.records + (if Kept(o, inc) then [o.rec] else [])
  {
    var counted := t.(count := t.count + 1);
    match o
    case Undecodable => counted
    case Parsed(r) =>
      if r.fix.None? then
        var flagged := counted.(invalid := counted.invalid + 1);
        if inc then flagged.(records := flagged.records + [r]) else flagged
      else counted.(records := counted.records + [r])
  }

  /** The next chunk read at `pos`. */
  function ChunkFrom(data: seq<byte>, pos: nat): seq<byte>
    requires pos <= |data|
  {
    data[pos..ReadEnd(|data|, pos, CHUNK_SIZE)]
  }

  /** The `getAllCoordinates` loop from cursor `pos` with tally `t`. */
  function FullScan(dec: Decoder, data: seq<byte>, pos: nat, inc: bool, t: Tally): (r: Result<Tally>)
    requires pos <= |data|
    decreases |data| - pos
  {
    var chunk := ChunkFrom(data, pos);
    if IsSentinel(chunk) then Ok(t)
    else
      var o := dec(chunk);
      if o.Fatal? then Err(o.error)
      else FullScan(dec, data, ReadEnd(|data|, pos, CHUNK_SIZE), inc, Absorb(t, o, inc))
  }

  /** The `getIntervalCoordinates` loop: after a kept chunk it reads past
      `CHUNK_SIZE * interval` further bytes, outside the `try`, so a
      negative `interval` raises ValueError there; skipped and undecodable
      chunks `continue` before that read. */
  function IntervalScan(dec: Decoder, data: seq<byte>, pos: nat, interval: int, inc: bool, t: Tally): (r: Result<Tally>)
    requires pos <= |data|
    decreases |data| - pos
  {
    var chunk := ChunkFrom(data, pos);
    if IsSentinel(chunk) then Ok(t)
    else
      var o := dec(chunk);
      if o.Fatal? then Err(o.error)
      else
        var next := ReadEnd(|data|, pos, CHUNK_SIZE);
        if !Kept(o, inc) then IntervalScan(dec, data, next, interval, inc, Absorb(t, o, inc))
        else
          match Advance(|data|, next, CHUNK_SIZE * interval)
          case Err(e) => Err(e)
          case Ok(resume) => IntervalScan(dec, data, resume, interval, inc, Absorb(t, o, inc))
  }

  /** Seek to the start point, read and check the magic, skip the rest of
      the header: the cursor of the first chunk. */
  function TrackStart(data: seq<byte>): (r: Result<nat>)
    ensures r.Ok? ==> r.value <= |data|
    ensures r.Ok? <==> GetStartPoint(|data|).Ok?
                       && var p := GetStartPoint(|data|).value.Offset(); data[p..p + 6] == MAGIC
    ensures r.Ok? ==> r.value == GetStartPoint(|data|).value.Offset() + 6 + HEADER_SKIP
    ensures r.Err? ==> r.error == Unrecognizable
  {
    match GetStartPoint(|data|)
    case Err(e) => Err(e)
    case Ok(sp) =>
      var p := sp.Offset();
      if data[p..p + 6] != MAGIC then Err(Unrecognizable)
      else Ok(p + 6 + HEADER_SKIP)
  }

  /** `getAllCoordinates(includeInvalid)` from an uncached file. */
  function AllCoordinates(dec: Decoder, data: seq<byte>, inc: bool): Result<seq<Record>> {
    match TrackStart(data)
    case Err(e) => Err(e)
    case Ok(p) =>
      match FullScan(dec, data, p, inc, EMPTY)
      case Err(e) => Err(e)
      case Ok(t) => Ok(t.records)
  }

  /** `getIntervalCoordinates(intervalCount, startingOffset, includeInvalid)`. */
  function IntervalCoordinates(dec: Decoder, data: seq<byte>, interval: int, offset: int, inc: bool): Result<seq<Record>> {
    match TrackStart(data)
    case Err(e) => Err(e)
    case Ok(p) =>
      match Advance(|data|, p, CHUNK_SIZE * offset)
      case Err(e) => Err(e)
      case Ok(q) =>
        match IntervalScan(dec, data, q, interval, inc, EMPTY)
        case Err(e) => Err(e)
        case Ok(t) => Ok(t.records)
  }

  // ---------------------------------------------------------------------
  // The track read slot by slot

  /** Slot `k` counted from `pos` holds the end-of-track marker. */
  predicate SentinelSlot(data: seq<byte>, pos: nat, k: nat) {
    pos + CHUNK_SIZE * (k + 1) <= |data| && IsSentinel(data[pos + CHUNK_SIZE * k..pos + CHUNK_SIZE * (k + 1)])
  }

  /** The outcomes of the first `k` full slots from `pos`. */
  function Outcomes(dec: Decoder, data: seq<byte>, pos: nat, k: nat): (os: seq<ChunkOutcome>)
    requires pos + CHUNK_SIZE * k <= |data|
    ensures |os| == k
    ensures forall j :: 0 <= j < k ==> os[j] == dec(data[pos + CHUNK_SIZE * j..pos + CHUNK_SIZE * (j + 1)])
  {
    if k == 0 then []
    else Outcomes(dec, data, pos, k - 1) + [dec(data[pos + CHUNK_SIZE * (k - 1)..pos + CHUNK_SIZE * k])]
  }

  /** The records a run of outcomes contributes, in order. */
  function Records(os: seq<ChunkOutcome>, inc: bool): seq<Record> {
    if os == [] then []
    else (if Kept(os[0], inc) then [os[0].rec] else []) + Records(os[1..], inc)
  }

  function Invalids(os: seq<ChunkOutcome>): nat {
    if os == [] then 0 else (if IsInvalid(os[0]) then 1 else 0) + Invalids(os[1..])
  }

  function Undecodables(os: seq<ChunkOutcome>): nat {
    if os == [] then 0 else (if os[0].Undecodable? then 1 else 0) + Undecodables(os[1..])
  }

  predicate NoFatal(os: seq<ChunkOutcome>) { forall j :: 0 <= j < |os| ==> !os[j].Fatal? }

  /** The tally a run of non-fatal outcomes adds. */
  function TallyOf(t: Tally, os: seq<ChunkOutcome>, inc: bool): Tally {
    Tally(t.records + Records(os, inc), t.count + |os|, t.invalid + Invalids(os))
  }

  lemma {:induction false} OutcomesShift(dec: Decoder, data: seq<byte>, pos: nat, k: nat)
    requires pos + CHUNK_SIZE * (k + 1) <= |data|
    ensures Outcomes(dec, data, pos, k + 1)
            == [dec(data[pos..pos + CHUNK_SIZE])] + Outcomes(dec, data, pos + CHUNK_SIZE, k)
  {
    var rest := Outcomes(dec, data, pos + CHUNK_SIZE, k);
    var a, b := Outcomes(dec, data, pos, k + 1), [dec(data[pos..pos + CHUNK_SIZE])] + rest;
    assert a[0] == b[0] by {
      assert data[pos + CHUNK_SIZE * 0..pos + CHUNK_SIZE * 1] == data[pos..pos + CHUNK_SIZE];
    }
    forall j | 0 <= j < k
      ensures a[j + 1] == rest[j]
    {
      SlotBytesShift(data, pos, j);
    }
    forall i | 0 < i < k + 1
      ensures a[i] == b[i]
    {
      var j := i - 1;
      assert a[j + 1] == rest[j];
    }
  }

  /** The bytes of slot `j + 1` from `pos` are those of slot `j` from the
      next chunk. */
  lemma SlotBytesShift(data: seq<byte>, pos: nat, j: nat)
    requires pos + CHUNK_SIZE * (j + 2) <= |data|
    ensures data[pos + CHUNK_SIZE * (j + 1)..pos + CHUNK_SIZE * (j + 1 + 1)]
            == data[pos + CHUNK_SIZE + CHUNK_SIZE * j..pos + CHUNK_SIZE + CHUNK_SIZE * (j + 1)]
  {
    assert pos + CHUNK_SIZE * (j + 1) == pos + CHUNK_SIZE + CHUNK_SIZE * j;
    assert pos + CHUNK_SIZE * (j + 1 + 1) == pos + CHUNK_SIZE + CHUNK_SIZE * (j + 1);
  }

  lemma AbsorbTally(t: Tally, o: ChunkOutcome, os: seq<ChunkOutcome>, inc: bool)
    requires !o.Fatal?
    ensures TallyOf(Absorb(t, o, inc), os, inc) == TallyOf(t, [o] + os, inc)
  {
    assert ([o] + os)[1..] == os;
  }

  /** Slot `j + 1` from `pos` is slot `j` from the next chunk. */
  lemma SlotShift(data: seq<byte>, pos: nat, j: nat)
    ensures SentinelSlot(data, pos, j + 1) == SentinelSlot(data, pos + CHUNK_SIZE, j)
  {
    assert pos + CHUNK_SIZE * (j + 1) == pos + CHUNK_SIZE + CHUNK_SIZE * j;
  }

  lemma NoFatalCons(o: ChunkOutcome, rest: seq<ChunkOutcome>)
    ensures NoFatal([o] + rest) <==> !o.Fatal? && NoFatal(rest)
  {
    assert ([o] + rest)[0] == o;
    assert forall j :: 0 <= j < |rest| ==> ([o] + rest)[j + 1] == rest[j];
  }

  /** The slots after the first one keep the first marker slot, one
      position earlier. */
  lemma NextSlots(data: seq<byte>, pos: nat, next: nat, k: nat)
    requires k > 0 && next == pos + CHUNK_SIZE
    requires SentinelSlot(data, pos, k) && forall j :: 0 <= j < k ==> !SentinelSlot(data, pos, j)
    ensures next <= |data| && ChunkFrom(data, pos) == data[pos..next]
    ensures !IsSentinel(ChunkFrom(data, pos))
    ensures SentinelSlot(data, next, k - 1)
    ensures forall j :: 0 <= j < k - 1 ==> !SentinelSlot(data, next, j)
  {
    assert data[pos..next] == data[pos + CHUNK_SIZE * 0..pos + CHUNK_SIZE * 1];
    assert !SentinelSlot(data, pos, 0);
    forall j | 0 <= j < k - 1
      ensures !SentinelSlot(data, next, j)
    {
      SlotShift(data, pos, j);
    }
    SlotShift(data, pos, k - 1);
  }

  /** A scan from the slot before the first marker slot `k` succeeds exactly
      when none of the `k` chunks before it raises, and then its tally is
      that of those chunks. */
  lemma {:induction false} FullScanReadsSlots(dec: Decoder, data: seq<byte>, pos: nat, inc: bool, t: Tally, k: nat)
    requires pos <= |data|
    requires SentinelSlot(data, pos, k) && forall j :: 0 <= j < k ==> !SentinelSlot(data, pos, j)
    ensures FullScan(dec, data, pos, inc, t).Ok? <==> NoFatal(Outcomes(dec, data, pos, k))
    ensures FullScan(dec, data, pos, inc, t).Ok? ==> FullScan(dec, data, pos, inc, t) == Ok(TallyOf(t, Outcomes(dec, data, pos, k), inc))
    decreases k, 1
  {
    if k == 0 {
      assert ChunkFrom(data, pos) == data[pos + CHUNK_SIZE * 0..pos + CHUNK_SIZE * 1];
      assert TallyOf(t, [], inc) == t;
    } else {
      ReadSlotsStep(dec, data, pos, inc, t, k);
    }
  }

  lemma {:induction false} ReadSlotsStep(dec: Decoder, data: seq<byte>, pos: nat, inc: bool, t: Tally, k: nat)
    requires pos <= |data| && k > 0
    requires SentinelSlot(data, pos, k) && forall j :: 0 <= j < k ==> !SentinelSlot(data, pos, j)
    ensures FullScan(dec, data, pos, inc, t).Ok? <==> NoFatal(Outcomes(dec, data, pos, k))
    ensures FullScan(dec, data, pos, inc, t).Ok? ==> FullScan(dec, data, pos, inc, t) == Ok(TallyOf(t, Outcomes(dec, data, pos, k), inc))
    decreases k, 0
  {
    var next := pos + CHUNK_SIZE;
    NextSlots(data, pos, next, k);
    var o := dec(ChunkFrom(data, pos));
    var rest := Outcomes(dec, data, next, k - 1);
    var os := Outcomes(dec, data, pos, k);
    assert os == [o] + rest by {
      OutcomesShift(dec, data, pos, k - 1);
    }
    var scan := FullScan(dec, data, pos, inc, t);
    if o.Fatal? {
      assert scan == Err(o.error) by {
        FullScanUnfold(dec, data, pos, inc, t);
      }
      NoFatalCons(o, rest);
    } else {
      var t' := Absorb(t, o, inc);
      assert scan == FullScan(dec, data, next, inc, t') by {
        FullScanUnfold(dec, data, pos, inc, t);
        assert ReadEnd(|data|, pos, CHUNK_SIZE) == next;
      }
      FullScanReadsSlots(dec, data, next, inc, t', k - 1);
      SlotStepCompose(scan, o, rest, os, t, inc);
    }
  }

  /** A scan that goes on after the non-fatal outcome `o` folds `o` into
      the tally of the outcomes after it. */
  lemma SlotStepCompose(scan: Result<Tally>, o: ChunkOutcome, rest: seq<ChunkOutcome>, os: seq<ChunkOutcome>, t: Tally, inc: bool)
    requires !o.Fatal? && os == [o] + rest
    requires scan.Ok? <==> NoFatal(rest)
    requires scan.Ok? ==> scan == Ok(TallyOf(Absorb(t, o, inc), rest, inc))
    ensures scan.Ok? <==> NoFatal(os)
    ensures scan.Ok? ==> scan == Ok(TallyOf(t, os, inc))
  {
    NoFatalCons(o, rest);
    AbsorbTally(t, o, rest, inc);
  }

  /** A scan that succeeds has found a marker slot, the first one, and has
      counted exactly the slots before it. */
  lemma {:induction false} FullScanFindsSentinel(dec: Decoder, data: seq<byte>, pos: nat, inc: bool, t: Tally)
    requires pos <= |data|
    requires FullScan(dec, data, pos, inc, t).Ok?
    ensures var u := FullScan(dec, data, pos, inc, t).value;
            && u.count >= t.count
            && SentinelSlot(data, pos, u.count - t.count)
            && forall j :: 0 <= j < u.count - t.count ==> !SentinelSlot(data, pos, j)
    decreases |data| - pos
  {
    var chunk := ChunkFrom(data, pos);
    if IsSentinel(chunk) {
      SentinelFirst(data, pos);
    } else {
      var next := ReadEnd(|data|, pos, CHUNK_SIZE);
      FullScanUnfold(dec, data, pos, inc, t);
      var o := dec(chunk);
      assert !o.Fatal?;
      var t' := Absorb(t, o, inc);
      assert FullScan(dec, data, pos, inc, t) == FullScan(dec, data, next, inc, t');
      FullScanFindsSentinel(dec, data, next, inc, t');
      var u := FullScan(dec, data, next, inc, t').value;
      PreviousSlots(data, pos, next, u.count - t'.count);
      assert u.count - t.count == u.count - t'.count + 1;
    }
  }

  /** A marker read at `pos` is slot 0. */
  lemma SentinelFirst(data: seq<byte>, pos: nat)
    requires pos <= |data| && IsSentinel(ChunkFrom(data, pos))
    ensures SentinelSlot(data, pos, 0)
  {
    assert data[pos + CHUNK_SIZE * 0..pos + CHUNK_SIZE * 1] == ChunkFrom(data, pos);
  }

  /** One step of the full scan past a chunk that is not the marker. */
  lemma FullScanUnfold(dec: Decoder, data: seq<byte>, pos: nat, inc: bool, t: Tally)
    requires pos <= |data| && !IsSentinel(ChunkFrom(data, pos))
    ensures var o := dec(ChunkFrom(data, pos));
            FullScan(dec, data, pos, inc, t)
            == if o.Fatal? then Err(o.error) else FullScan(dec, data, ReadEnd(|data|, pos, CHUNK_SIZE), inc, Absorb(t, o, inc))
  {
  }

  /** Read backwards: a marker slot found from the chunk after a full,
      non-marker chunk is one slot further from that chunk. */
  lemma PreviousSlots(data: seq<byte>, pos: nat, next: nat, k: nat)
    requires pos <= |data| && next == ReadEnd(|data|, pos, CHUNK_SIZE) && !IsSentinel(ChunkFrom(data, pos))
    requires SentinelSlot(data, next, k) && forall j :: 0 <= j < k ==> !SentinelSlot(data, next, j)
    ensures SentinelSlot(data, pos, k + 1) && forall j :: 0 <= j < k + 1 ==> !SentinelSlot(data, pos, j)
  {
    assert next == pos + CHUNK_SIZE;
    assert !SentinelSlot(data, pos, 0) by {
      assert data[pos + CHUNK_SIZE * 0..pos + CHUNK_SIZE * 1] == ChunkFrom(data, pos);
    }
    SlotShift(data, pos, k);
    forall j | 0 < j < k + 1
      ensures !SentinelSlot(data, pos, j)
    {
      SlotShift(data, pos, j - 1);
    }
  }

  /** One step of the interval scan past a chunk that is not the marker. */
  lemma IntervalScanUnfold(dec: Decoder, data: seq<byte>, pos: nat, interval: int, inc: bool, t: Tally)
    requires pos <= |data| && !IsSentinel(ChunkFrom(data, pos))
    ensures var o := dec(ChunkFrom(data, pos));
            var next := ReadEnd(|data|, pos, CHUNK_SIZE);
            IntervalScan(dec, data, pos, interval, inc, t)
            == if o.Fatal? then Err(o.error)
               else if !Kept(o, inc) then IntervalScan(dec, data, next, interval, inc, Absorb(t, o, inc))
               else if interval < 0 then Err(ValueError)
               else IntervalScan(dec, data, ReadEnd(|data|, next, CHUNK_SIZE * interval), interval, inc, Absorb(t, o, inc))
  {
  }

  /** A scan that does not succeed fails with the error of a chunk. */
  lemma {:induction false} ScanErrors(dec: Decoder, data: seq<byte>, pos: nat, inc: bool, t: Tally)
    requires pos <= |data|
    ensures FullScan(dec, data, pos, inc, t).Err? ==> FullScan(dec, data, pos, inc, t).error in {IndexError, ValueError}
    decreases |data| - pos
  {
    var chunk := ChunkFrom(data, pos);
    if !IsSentinel(chunk) && !dec(chunk).Fatal? {
      ScanErrors(dec, data, ReadEnd(|data|, pos, CHUNK_SIZE), inc, Absorb(t, dec(chunk), inc));
    }
  }

  // ---------------------------------------------------------------------
  // includeInvalid and intervalCount

  /** The records of a run that have a fix. */
  function Valid(rs: seq<Record>): (v: seq<Record>)
    ensures forall j :: 0 <= j < |v| ==> v[j].fix.Some?
  {
    if rs == [] then [] else (if rs[0].fix.Some? then [rs[0]] else []) + Valid(rs[1..])
  }

  lemma {:induction false} ValidAppend(a: seq<Record>, b: seq<Record>)
    ensures Valid(a + b) == Valid(a) + Valid(b)
  {
    if a == [] {
      assert a + b == b;
    } else {
      assert (a + b)[0] == a[0];
      assert (a + b)[1..] == a[1..] + b;
      ValidAppend(a[1..], b);
    }
  }

  /** What `includeInvalid=False` returns is what `includeInvalid=True`
      returns with the invalid records dropped, and the counters agree. */
  lemma {:induction false} IncludeInvalidFilters(os: seq<ChunkOutcome>)
    requires NoFatal(os)
    ensures Records(os, false) == Valid(Records(os, true))
    ensures |Records(os, true)| == |Records(os, false)| + Invalids(os)
    ensures |os| == |Records(os, true)| + Undecodables(os)
  {
    if os != [] {
      assert NoFatal(os[1..]) by {
        assert forall j :: 0 <= j < |os| - 1 ==> os[1..][j] == os[j + 1];
      }
      IncludeInvalidFilters(os[1..]);
      var head := if Kept(os[0], true) then [os[0].rec] else [];
      ValidAppend(head, Records(os[1..], true));
      assert Valid(head) == (if Kept(os[0], false) then [os[0].rec] else []);
    }
  }

  /** The two settings of `includeInvalid` fail alike and count alike; the
      lists differ by the invalid records only. */
  lemma {:induction false} ScanIncludeInvalid(dec: Decoder, data: seq<byte>, pos: nat, a: Tally, b: Tally)
    requires pos <= |data|
    requires b == Tally(Valid(a.records), a.count, a.invalid)
    ensures FullScan(dec, data, pos, true, a).Ok? <==> FullScan(dec, data, pos, false, b).Ok?
    ensures FullScan(dec, data, pos, true, a).Err? ==> FullScan(dec, data, pos, true, a) == FullScan(dec, data, pos, false, b)
    ensures FullScan(dec, data, pos, true, a).Ok? ==>
              var u, v := FullScan(dec, data, pos, true, a).value, FullScan(dec, data, pos, false, b).value;
              v == Tally(Valid(u.records), u.count, u.invalid)
    decreases |data| - pos
  {
    var chunk := ChunkFrom(data, pos);
    if !IsSentinel(chunk) {
      var o := dec(chunk);
      FullScanUnfold(dec, data, pos, true, a);
      FullScanUnfold(dec, data, pos, false, b);
      if !o.Fatal? {
        var a', b' := Absorb(a, o, true), Absorb(b, o, false);
        var head := if Kept(o, true) then [o.rec] else [];
        ValidAppend(a.records, head);
        assert Valid(head) == (if Kept(o, false) then [o.rec] else []);
        ScanIncludeInvalid(dec, data, ReadEnd(|data|, pos, CHUNK_SIZE), a', b');
      }
    }
  }

  /** `intervalCount=0` reads every chunk: it is `getAllCoordinates`. */
  lemma {:induction false} ZeroIntervalIsFull(dec: Decoder, data: seq<byte>, pos: nat, inc: bool, t: Tally)
    requires pos <= |data|
    ensures IntervalScan(dec, data, pos, 0, inc, t) == FullScan(dec, data, pos, inc, t)
    decreases |data| - pos
  {
    var chunk := ChunkFrom(data, pos);
    if !IsSentinel(chunk) {
      var o := dec(chunk);
      if !o.Fatal? {
        var next := ReadEnd(|data|, pos, CHUNK_SIZE);
        assert ReadEnd(|data|, next, CHUNK_SIZE * 0) == next;
        ZeroIntervalIsFull(dec, data, next, inc, Absorb(t, o, inc));
      }
    }
  }

  /** With `intervalCount=0` and `startingOffset=0` both scanners return
      the same list. */
  lemma ZeroIntervalSameList(dec: Decoder, data: seq<byte>, inc: bool)
    ensures IntervalCoordinates(dec, data, 0, 0, inc) == AllCoordinates(dec, data, inc)
  {
    if TrackStart(data).Ok? {
      var p := TrackStart(data).value;
      assert Advance(|data|, p, CHUNK_SIZE * 0) == Ok(p);
      ZeroIntervalIsFull(dec, data, p, inc, EMPTY);
    }
  }

  /** With a negative `intervalCount` the skip after the first kept chunk
      raises ValueError. */
  lemma NegativeIntervalRaises(dec: Decoder, data: seq<byte>, pos: nat, interval: int, inc: bool, t: Tally)
    requires pos <= |data| && interval < 0
    requires !IsSentinel(ChunkFrom(data, pos)) && Kept(dec(ChunkFrom(data, pos)), inc)
    ensures IntervalScan(dec, data, pos, interval, inc, t) == Err(ValueError)
  {
    IntervalScanUnfold(dec, data, pos, interval, inc, t);
  }

  /** A negative `startingOffset` raises ValueError at the first skip, once
      the header has been checked; a non-negative one starts the scan that
      many chunks in. */
  lemma OffsetSkip(dec: Decoder, data: seq<byte>, interval: int, offset: int, inc: bool)
    requires TrackStart(data).Ok?
    ensures offset < 0 ==> IntervalCoordinates(dec, data, interval, offset, inc) == Err(ValueError)
    ensures offset >= 0 ==>
              var q := ReadEnd(|data|, TrackStart(data).value, CHUNK_SIZE * offset);
              IntervalCoordinates(dec, data, interval, offset, inc)
              == match IntervalScan(dec, data, q, interval, inc, EMPTY)
                 case Err(e) => Err(e)
                 case Ok(t) => Ok(t.records)
  {
    NegativeChunksRejected(|data|, TrackStart(data).value, offset);
  }

  // ---------------------------------------------------------------------
  // A positive intervalCount

  /** Where the `j`-th chunk of a stride of `m` slots starts. */
  function StridePos(pos: nat, m: nat, j: nat): nat {
    pos + CHUNK_SIZE * (m * j)
  }

  /** The chunk a read at `p` returns, empty past the end. */
  function SlotAt(data: seq<byte>, p: nat): seq<byte> {
    if p <= |data| then ChunkFrom(data, p) else []
  }

  /** The `j`-th chunk of the stride is a full chunk, not the marker, and kept. */
  predicate StrideKept(dec: seq<byte> -> ChunkOutcome, data: seq<byte>, pos: nat, m: nat, inc: bool, j: nat) {
    var p := StridePos(pos, m, j);
    p + CHUNK_SIZE <= |data| && !IsSentinel(SlotAt(data, p)) && Kept(dec(SlotAt(data, p)), inc)
  }

  /** The outcomes of the first `k` chunks of the stride. */
  function Strided(dec: seq<byte> -> ChunkOutcome, data: seq<byte>, pos: nat, m: nat, k: nat): (os: seq<ChunkOutcome>)
    ensures |os| == k
  {
    seq(k, j requires 0 <= j < k => dec(SlotAt(data, StridePos(pos, m, j))))
  }

  lemma StrideStep(pos: nat, m: nat, j: nat)
    ensures StridePos(pos + CHUNK_SIZE * m, m, j) == StridePos(pos, m, j + 1)
    ensures StridePos(pos, m, 0) == pos
  {
    assert m * (j + 1) == m * j + m;
  }

  lemma StrideGrows(pos: nat, m: nat, k: nat)
    requires k >= 1
    ensures pos + CHUNK_SIZE * m <= StridePos(pos, m, k)
  {
    assert m <= m * k;
  }

  /** The stride from the next chunk is the stride from here, less its first chunk. */
  lemma StridedShift(dec: seq<byte> -> ChunkOutcome, data: seq<byte>, pos: nat, m: nat, k: nat)
    requires k >= 1
    ensures Strided(dec, data, pos, m, k) == [dec(SlotAt(data, pos))] + Strided(dec, data, pos + CHUNK_SIZE * m, m, k - 1)
  {
    var next := pos + CHUNK_SIZE * m;
    var os, rest := Strided(dec, data, pos, m, k), Strided(dec, data, next, m, k - 1);
    StrideStep(pos, m, 0);
    assert os[0] == dec(SlotAt(data, pos));
    forall j | 0 <= j < k - 1
      ensures os[j + 1] == rest[j]
    {
      StrideStep(pos, m, j);
      assert os[j + 1] == dec(SlotAt(data, StridePos(pos, m, j + 1)));
      assert rest[j] == dec(SlotAt(data, StridePos(next, m, j)));
    }
    assert os == [os[0]] + rest;
  }

  lemma StrideKeptShift(dec: seq<byte> -> ChunkOutcome, data: seq<byte>, pos: nat, next: nat, m: nat, inc: bool, k: nat)
    requires next == pos + CHUNK_SIZE * m
    requires forall j :: 0 <= j < k ==> StrideKept(dec, data, pos, m, inc, j)
    ensures forall j :: 0 <= j < k - 1 ==> StrideKept(dec, data, next, m, inc, j)
  {
    forall j | 0 <= j < k - 1
      ensures StrideKept(dec, data, next, m, inc, j)
    {
      StrideStep(pos, m, j);
      assert StrideKept(dec, data, pos, m, inc, j + 1);
    }
  }

  /** Every chunk of a run of kept slots is kept, so its records are the
      chunks' records, in order. */
  lemma StridedKept(dec: seq<byte> -> ChunkOutcome, data: seq<byte>, pos: nat, m: nat, inc: bool, k: nat)
    requires forall j :: 0 <= j < k ==> StrideKept(dec, data, pos, m, inc, j)
    ensures var os := Strided(dec, data, pos, m, k);
            && (forall j :: 0 <= j < k ==> Kept(os[j], inc))
            && |Records(os, inc)| == k
            && (forall j :: 0 <= j < k ==> Kept(os[j], inc) && Records(os, inc)[j] == os[j].rec)
  {
    var os := Strided(dec, data, pos, m, k);
    forall j | 0 <= j < k
      ensures Kept(os[j], inc)
    {
      assert StrideKept(dec, data, pos, m, inc, j);
    }
    KeptRecords(os, inc);
  }

  /** A kept chunk at `pos`, and the skip after it within the file: the
      scan goes on one stride further. */
  lemma StrideHead(dec: Decoder, data: seq<byte>, pos: nat, interval: int, m: nat, inc: bool, t: Tally)
    requires interval >= 0 && m == interval + 1 && pos + CHUNK_SIZE * m <= |data|
    requires !IsSentinel(ChunkFrom(data, pos)) && Kept(dec(ChunkFrom(data, pos)), inc)
    ensures IntervalScan(dec, data, pos, interval, inc, t)
            == IntervalScan(dec, data, pos + CHUNK_SIZE * m, interval, inc, Absorb(t, dec(ChunkFrom(data, pos)), inc))
  {
    IntervalScanUnfold(dec, data, pos, interval, inc, t);
    assert ReadEnd(|data|, ReadEnd(|data|, pos, CHUNK_SIZE), CHUNK_SIZE * interval) == pos + CHUNK_SIZE * m;
  }

  /** The kept chunks of a run are all records, in order. */
  lemma {:induction false} KeptRecords(os: seq<ChunkOutcome>, inc: bool)
    requires forall j :: 0 <= j < |os| ==> Kept(os[j], inc)
    ensures |Records(os, inc)| == |os|
    ensures forall j :: 0 <= j < |os| ==> Kept(os[j], inc) && Records(os, inc)[j] == os[j].rec
  {
    if os != [] {
      var rest := os[1..];
      assert forall j :: 0 <= j < |rest| ==> rest[j] == os[j + 1];
      KeptRecords(rest, inc);
      assert Kept(os[0], inc);
      assert Records(os, inc) == [os[0].rec] + Records(rest, inc);
    }
  }

  /** With `intervalCount >= 0` (a stride of `m = intervalCount + 1`
      slots), while every chunk read is kept the scan reads every `m`-th
      slot: the `j`-th chunk it decodes is slot `j * m`, and after `k` such
      chunks it continues at slot `k * m` with those chunks tallied (their
      records in order: StridedKept). */
  lemma {:induction false} IntervalReadsSlots(dec: Decoder, data: seq<byte>, pos: nat, interval: int, m: nat,
                                             inc: bool, t: Tally, k: nat)
    requires interval >= 0 && m == interval + 1 && pos <= |data|
    requires forall j :: 0 <= j < k ==> StrideKept(dec, data, pos, m, inc, j)
    requires StridePos(pos, m, k) <= |data|
    ensures IntervalScan(dec, data, pos, interval, inc, t)
            == IntervalScan(dec, data, StridePos(pos, m, k), interval, inc, TallyOf(t, Strided(dec, data, pos, m, k), inc))
    decreases k
  {
    StrideStep(pos, m, 0);
    if k == 0 {
      assert Strided(dec, data, pos, m, k) == [];
      assert TallyOf(t, [], inc) == t;
    } else {
      var next := pos + CHUNK_SIZE * m;
      assert StrideKept(dec, data, pos, m, inc, 0);
      StrideFirst(dec, data, pos, m, inc);
      StrideGrows(pos, m, k);
      var t' := Absorb(t, dec(ChunkFrom(data, pos)), inc);
      assert IntervalScan(dec, data, next, interval, inc, t')
             == IntervalScan(dec, data, StridePos(pos, m, k), interval, inc, TallyOf(t', Strided(dec, data, next, m, k - 1), inc)) by {
        StrideKeptShift(dec, data, pos, next, m, inc, k);
        StrideStep(pos, m, k - 1);
        IntervalReadsSlots(dec, data, next, interval, m, inc, t', k - 1);
      }
      StrideCompose(dec, data, pos, interval, m, inc, t, k, next, t');
    }
  }

  /** The first slot of a stride is the chunk at its start. */
  lemma StrideFirst(dec: Decoder, data: seq<byte>, pos: nat, m: nat, inc: bool)
    requires StrideKept(dec, data, pos, m, inc, 0)
    ensures pos + CHUNK_SIZE <= |data| && SlotAt(data, pos) == ChunkFrom(data, pos)
    ensures !IsSentinel(ChunkFrom(data, pos)) && Kept(dec(ChunkFrom(data, pos)), inc)
  {
    StrideStep(pos, m, 0);
  }

  /** The inductive step of IntervalReadsSlots: a kept chunk at `pos`
      followed by `k - 1` strided chunks from the next stride. */
  lemma StrideCompose(dec: Decoder, data: seq<byte>, pos: nat, interval: int, m: nat, inc: bool, t: Tally,
                      k: nat, next: nat, t': Tally)
    requires k >= 1 && interval >= 0 && m == interval + 1
    requires next == pos + CHUNK_SIZE * m && next <= StridePos(pos, m, k) <= |data|
    requires !IsSentinel(ChunkFrom(data, pos)) && Kept(dec(ChunkFrom(data, pos)), inc)
    requires t' == Absorb(t, dec(ChunkFrom(data, pos)), inc)
    requires IntervalScan(dec, data, next, interval, inc, t')
             == IntervalScan(dec, data, StridePos(pos, m, k), interval, inc, TallyOf(t', Strided(dec, data, next, m, k - 1), inc))
    ensures IntervalScan(dec, data, pos, interval, inc, t)
            == IntervalScan(dec, data, StridePos(pos, m, k), interval, inc, TallyOf(t, Strided(dec, data, pos, m, k), inc))
  {
    var rest, os := Strided(dec, data, next, m, k - 1), Strided(dec, data, pos, m, k);
    assert IntervalScan(dec, data, pos, interval, inc, t) == IntervalScan(dec, data, next, interval, inc, t') by {
      StrideHead(dec, data, pos, interval, m, inc, t);
    }
    assert TallyOf(t', rest, inc) == TallyOf(t, os, inc) by {
      StridedTally(dec, data, pos, m, inc, t, k, next, t');
    }
  }

  /** Tallying a strided run is tallying its first chunk and then the rest. */
  lemma StridedTally(dec: seq<byte> -> ChunkOutcome, data: seq<byte>, pos: nat, m: nat, inc: bool, t: Tally,
                     k: nat, next: nat, t': Tally)
    requires k >= 1 && next == pos + CHUNK_SIZE * m && pos + CHUNK_SIZE <= |data|
    requires !dec(ChunkFrom(data, pos)).Fatal? && t' == Absorb(t, dec(ChunkFrom(data, pos)), inc)
    ensures TallyOf(t', Strided(dec, data, next, m, k - 1), inc) == TallyOf(t, Strided(dec, data, pos, m, k), inc)
  {
    var o, rest := dec(ChunkFrom(data, pos)), Strided(dec, data, next, m, k - 1);
    StridedShift(dec, data, pos, m, k);
    assert SlotAt(data, pos) == ChunkFrom(data, pos);
    assert Strided(dec, data, pos, m, k) == [o] + rest;
    AbsorbTally(t, o, rest, inc);
  }

  /** A marker at slot `k * m` ends the strided scan with the `k` chunks
      before it tallied. */
  lemma IntervalStopsAtMarker(dec: Decoder, data: seq<byte>, pos: nat, interval: int, m: nat,
                              inc: bool, t: Tally, k: nat)
    requires interval >= 0 && m == interval + 1 && pos <= |data|
    requires forall j :: 0 <= j < k ==> StrideKept(dec, data, pos, m, inc, j)
    requires StridePos(pos, m, k) <= |data| && IsSentinel(SlotAt(data, StridePos(pos, m, k)))
    ensures IntervalScan(dec, data, pos, interval, inc, t) == Ok(TallyOf(t, Strided(dec, data, pos, m, k), inc))
  {
    IntervalReadsSlots(dec, data, pos, interval, m, inc, t, k);
    var q, tk := StridePos(pos, m, k), TallyOf(t, Strided(dec, data, pos, m, k), inc);
    assert IsSentinel(ChunkFrom(data, q));
    assert IntervalScan(dec, data, q, interval, inc, tk) == Ok(tk);
  }

  /** The stride can step over the end-of-track marker.  A kept record, a
      marker, the record again and a marker: the full scan stops at the
      first marker with one record, while the scan with `intervalCount=1`
      skips both markers, reads an empty chunk at the end of the file and
      raises. */
  lemma IntervalStepsOverMarker(dec: Decoder, rec: seq<byte>, inc: bool)
    requires |rec| == CHUNK_SIZE && !IsSentinel(rec) && Kept(dec(rec), inc)
    ensures var blank: seq<byte> := seq(CHUNK_SIZE, _ => 32);
            var data := rec + blank + rec + blank;
            && FullScan(dec, data, 0, inc, EMPTY) == Ok(Absorb(EMPTY, dec(rec), inc))
            && IntervalScan(dec, data, 0, 1, inc, EMPTY) == Err(IndexError)
  {
    var blank: seq<byte> := seq(CHUNK_SIZE, _ => 32);
    var data := rec + blank + rec + blank;
    var o := dec(rec);
    assert IsSentinel(blank);
    assert ChunkFrom(data, 0) == rec;
    assert ChunkFrom(data, 130) == blank;
    assert ChunkFrom(data, 260) == rec;
    assert ChunkFrom(data, 520) == [];
    var t1 := Absorb(EMPTY, o, inc);
    assert FullScan(dec, data, 130, inc, t1) == Ok(t1);
    assert FullScan(dec, data, 0, inc, EMPTY) == Ok(t1);
    var t2 := Absorb(t1, o, inc);
    assert IntervalScan(dec, data, 520, 1, inc, t2) == Err(IndexError);
    assert IntervalScan(dec, data, 260, 1, inc, t1) == Err(IndexError);
  }
}
