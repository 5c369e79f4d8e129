/** The recording object: its name, its bytes and the single-slot cache of
    the last coordinate list a scan produced.  The two scanners walk the
    metadata track with a cursor, as the source does with its file handle,
    and are proved equal to the scan functions of module Track. */
module Mp4 {
  import opened Errors
  import opened Bytes
  import opened Chunk
  import opened Track
  import opened FormatRegistry
  import opened FilenameParser
  import opened Frames

  class Mp4File {
    /** The file name the capture identity is parsed from. */
    const name: string
    /** The whole file; its length is the size the format table keys on. */
    const data: seq<byte>
    /** The static chunk parser `_parseCoordinate`. */
    const parse: Decoder
    /** `cached_Coordinates`. */
    var cachedCoordinates: Option<seq<Record>>

    constructor (name: string, data: seq<byte>)
      ensures this.name == name && this.data == data && parse == DecodeChunk
      ensures cachedCoordinates.None?
    {
      this.name := name;
      this.data := data;
      parse := DecodeChunk;
      cachedCoordinates := None;
    }

    /** Seek to the start point, check `CSMDAT` and skip the rest of the
        header; the cursor of the first chunk. */
    method OpenTrack() returns (r: Result<nat>)
      ensures r == TrackStart(data)
    {
      var sp := GetStartPoint(|data|);
      if sp.Err? {
        return Err(sp.error);
      }
      var pos := sp.value.Offset();
      var header := data[pos..pos + 6];
      pos := pos + 6;
      if header != MAGIC {
        return Err(Unrecognizable);
      }
      pos := ReadEnd(|data|, pos, HEADER_SKIP);
      return Ok(pos);
    }

    /** `getAllCoordinates(includeInvalid)`: a cached list is returned as it
        is, whatever `inc` asks for; otherwise the whole track is scanned and
        a successful result replaces the cache.  A raising scan leaves the
        cache alone. */
    method GetAllCoordinates(inc: bool) returns (r: Result<seq<Record>>)
      modifies this
      ensures old(cachedCoordinates).Some? ==>
                r == Ok(old(cachedCoordinates).value) && cachedCoordinates == old(cachedCoordinates)
      ensures old(cachedCoordinates).None? ==> r == AllCoordinates(parse, data, inc)
      ensures old(cachedCoordinates).None? ==>
                cachedCoordinates == if r.Ok? then Some(r.value) else None
    {
      if cachedCoordinates.Some? {
        return Ok(cachedCoordinates.value);
      }
      var start := OpenTrack();
      if start.Err? {
        return Err(start.error);
      }
      var pos := start.value;
      var result: seq<Record> := [];
      var count, invalid := 0, 0;
      while true
        invariant pos <= |data| && cachedCoordinates.None?
        invariant FullScan(parse, data, pos, inc, Tally(result, count, invalid))
                  == FullScan(parse, data, start.value, inc, EMPTY)
        decreases |data| - pos
      {
        var next := ReadEnd(|data|, pos, CHUNK_SIZE);
        var chunk := data[pos..next];
        if IsSentinel(chunk) {
          break;
        }
        ghost var before := Tally(result, count, invalid);
        FullScanUnfold(parse, data, pos, inc, before);
        count := count + 1;
        var o := parse(chunk);
        if o.Fatal? {
          return Err(o.error);
        }
        if o.Parsed? {
          var rec := o.rec;
          if rec.fix.None? {
            invalid := invalid + 1;
            if inc {
              result := result + [rec];
            }
          } else {
            result := result + [rec];
          }
        }
        assert Tally(result, count, invalid) == Absorb(before, o, inc);
        pos := next;
      }
      cachedCoordinates := Some(result);
      return Ok(result);
    }

    /** `getIntervalCoordinates(intervalCount, startingOffset,
        includeInvalid)`: never consults the cache, always scans, and a
        successful result replaces the cache.  A negative skip raises
        ValueError before the cache is written. */
    method GetIntervalCoordinates(interval: int, offset: int, inc: bool) returns (r: Result<seq<Record>>)
      modifies this
      ensures r == IntervalCoordinates(parse, data, interval, offset, inc)
      ensures cachedCoordinates == if r.Ok? then Some(r.value) else old(cachedCoordinates)
    {
      var start := OpenTrack();
      if start.Err? {
        return Err(start.error);
      }
      var skipped := Advance(|data|, start.value, CHUNK_SIZE * offset);
      if skipped.Err? {
        return Err(skipped.error);
      }
      var pos := skipped.value;
      ghost var first := pos;
      var result: seq<Record> := [];
      var count, invalid := 0, 0;
      while true
        invariant pos <= |data| && cachedCoordinates == old(cachedCoordinates)
        invariant IntervalScan(parse, data, pos, interval, inc, Tally(result, count, invalid))
                  == IntervalScan(parse, data, first, interval, inc, EMPTY)
        decreases |data| - pos
      {
        var next := ReadEnd(|data|, pos, CHUNK_SIZE);
        var chunk := data[pos..next];
        if IsSentinel(chunk) {
          break;
        }
        ghost var before := Tally(result, count, invalid);
        IntervalScanUnfold(parse, data, pos, interval, inc, before);
        count := count + 1;
        var o := parse(chunk);
        if o.Fatal? {
          return Err(o.error);
        }
        if o.Undecodable? {
          pos := next;
        } else {
          var rec := o.rec;
          if rec.fix.None? {
            invalid := invalid + 1;
          }
          if rec.fix.None? && !inc {
            pos := next;
          } else {
            result := result + [rec];
            var skip := Advance(|data|, next, CHUNK_SIZE * interval);
            if skip.Err? {
              return Err(skip.error);
            }
            pos := skip.value;
          }
        }
        assert Tally(result, count, invalid) == Absorb(before, o, inc);
      }
      cachedCoordinates := Some(result);
      return Ok(result);
    }
    /** `extractFrames(step)`: one task per index of `range(0, frameCount,
        step)`, each yielding the frame there or None.  `frameCount` is the
        capture's reported frame count and `readFrame` the capture itself. */
    method ExtractFrames<F>(frameCount: int, step: int, readFrame: int -> Option<F>) returns (r: Result<seq<Option<F>>>)
      ensures r == SampledFrames(frameCount, step, readFrame)
    {
      if step == 0 {
        return Err(ValueError);
      }
      var frames: seq<Option<F>> := [];
      var i := 0;
      while (step > 0 && i < frameCount) || (step < 0 && i > frameCount)
        invariant i == |frames| * step
        invariant |frames| <= RangeLength(frameCount, step)
        invariant forall j :: 0 <= j < |frames| ==> frames[j] == readFrame(j * step)
        decreases RangeLength(frameCount, step) - |frames|
      {
        RangeIsMultiplesBeforeStop(frameCount, step, |frames|);
        frames := frames + [readFrame(i)];
        i := i + step;
      }
      RangeIsMultiplesBeforeStop(frameCount, step, |frames|);
      var idx := Range(frameCount, step).value;
      assert |frames| == |idx|;
      assert forall j :: 0 <= j < |idx| ==> frames[j] == readFrame(idx[j]);
      assert SampledFrames(frameCount, step, readFrame) == Ok(seq(|idx|, j requires 0 <= j < |idx| => readFrame(idx[j])));
      assert frames == seq(|idx|, j requires 0 <= j < |idx| => readFrame(idx[j]));
      return Ok(frames);
    }

    /** The first loop of `writeFrames`: the counter goes up by `step` for
        every slot and each present frame is planned under
        `<dir>/<start date>_<counter>.jpg`.  `startDate` is what
        `getStartDateFormat()` returns; it is consulted only at a present
        frame, so an unparsable name raises only when there is one. */
    method PlanFrames<F>(startDate: Result<string>, targetDir: string, frames: seq<Option<F>>, step: int)
      returns (r: Result<seq<ImagePath>>)
      ensures !HasFrame(frames) ==> r == Ok([])
      ensures HasFrame(frames) && startDate.Err? ==> r == Err(startDate.error)
      ensures HasFrame(frames) && startDate.Ok? ==> r == Ok(PlannedPaths(targetDir, startDate.value, frames, step))
    {
      var frameCount := 0;
      var planned: seq<ImagePath> := [];
      for j := 0 to |frames|
        invariant frameCount == j * step
        invariant startDate.Ok? ==> planned == PlannedPaths(targetDir, startDate.value, frames[..j], step)
        invariant HasFrame(frames[..j]) ==> startDate.Ok?
        invariant !HasFrame(frames[..j]) ==> planned == []
      {
        frameCount := frameCount + step;
        assert frameCount == (j + 1) * step;
        HasFrameStep(frames, j);
        if startDate.Ok? {
          PlannedPathsStep(targetDir, startDate.value, frames, step, j);
        }
        if frames[j].Some? {
          if startDate.Err? {
            HasFrameStep(frames, j);
            return Err(startDate.error);
          }
          planned := planned + [ImagePath(targetDir, startDate.value, frameCount)];
        }
      }
      assert frames[..|frames|] == frames;
      return Ok(planned);
    }

    /** `writeFrames(targetDir, frames, step)`: plan the paths, then write
        every planned image, `imwrite` telling which paths can be written;
        one failed write fails the call. */
    method WriteFrames<F>(targetDir: string, frames: seq<Option<F>>, step: Option<int>, imwrite: string -> bool)
      returns (r: Result<seq<ImagePath>>)
      ensures r == WriteOutcome(name, targetDir, frames, step, imwrite)
    {
      var startDate := GetStartDateFormat(name);
      r := WriteWith(startDate, targetDir, frames, step, imwrite);
    }

    /** The body of `writeFrames` for the date `getStartDateFormat()`
        returns.  Every planned image is written, as every `_writeFrame`
        task reaches `imwrite` before the first failure surfaces from
        `gather`; the call fails if any write failed. */
    method WriteWith<F>(startDate: Result<string>, targetDir: string, frames: seq<Option<F>>, step: Option<int>,
                        imwrite: string -> bool)
      returns (r: Result<seq<ImagePath>>)
      ensures r == WriteResult(startDate, targetDir, frames, step, imwrite)
    {
      var s := if step.None? then 1 else step.value;
      var plan := PlanFrames(startDate, targetDir, frames, s);
      if plan.Err? {
        return Err(plan.error);
      }
      var planned := plan.value;
      var allWritten := true;
      for k := 0 to |planned|
        invariant allWritten <==> forall k' :: 0 <= k' < k ==> imwrite(PathText(planned[k']))
      {
        var written := imwrite(PathText(planned[k]));
        allWritten := allWritten && written;
      }
      if !allWritten {
        return Err(WriteError);
      }
      return Ok(planned);
    }
  }

  /** The cache is a single slot shared by both scanners: after a full
      scan, an interval scan and another full scan, the last call returns
      the interval scan's list. */
  method CacheAfterInterval(f: Mp4File, interval: int, offset: int)
    returns (all: Result<seq<Record>>, some: Result<seq<Record>>, again: Result<seq<Record>>)
    requires f.cachedCoordinates.None?
    modifies f
    ensures all == AllCoordinates(f.parse, f.data, true)
    ensures some == IntervalCoordinates(f.parse, f.data, interval, offset, true)
    ensures some.Ok? ==> again == some
  {
    all := f.GetAllCoordinates(true);
    some := f.GetIntervalCoordinates(interval, offset, true);
    again := f.GetAllCoordinates(true);
  }
}
