# mp4extract in Dafny

A model of the recording reader in `mp4extract.py`, the part of the bicycle
dash-camera pipeline that turns one camera file into an identity, a list of
GPS fixes and a set of still images.  A recording is recognised by its exact
byte size, and the size fixes where its metadata track starts.  The track
begins with the magic `CSMDAT` and 34 more header bytes.  After that come
130-byte chunks, up to a chunk of 130 spaces that ends the track.  Each chunk
holds one record: an eight-digit index, an `A` (valid) or `V` (invalid)
status, a 21-byte latitude/longitude group and a timestamp.  The file name
holds the capture identity: a head flag, a start date and time, and a serial
number.

The modules follow the program's structure:

- `Errors`: the exceptions as a `Result` type.
- `Bytes`: digit runs, `int()` and `str()`.
- `Utf8`: strict `bytes.decode()`.
- `Timestamps`: the `strptime`/`strftime` layouts.
- `FormatRegistry`: the `FileSizes`/`SeekSizes` table, `getFileSize` and
  `getStartPoint`.
- `FilenameParser`: the file-name grammar and everything derived from it.
- `Coordinates`: the latitude/longitude group and the degree/minute arithmetic.
- `Chunk`: `_parseCoordinate`.
- `Track`: the two scans as functions over the file's bytes, with their lemmas.
- `Frames`: `range`, `extractFrames` sampling and `writeFrames` naming.
- `Percent`: `getItemByPercent` and `getPercentOfItem`.
- `Mp4`: the class `Mp4File`, with the coordinate cache as a mutable field.

`Mp4File`'s scanners walk the track with a cursor, as the source does with its
file handle.  They are proved equal to the `Track` functions.

The file's bytes, its name and the frame reader are inputs to the model.
`cv2.imwrite` is an input too: it is a predicate that says which paths can be
written.

The model follows the code in these details, which a reader might not
expect:

- The file-name pattern is searched, not anchored, and the leftmost match is
  used.  The letter classes are `[APT][GMD_][T_][S_]`.
- Only `UnicodeDecodeError` is local to a chunk.  Every other failure while
  parsing a chunk ends the scan.
- The timestamp is read from the record remainder with its first four
  characters dropped.
- An undecodable chunk raises `count` but not `invalid_count`.
- A cached coordinate list is returned whatever `includeInvalid` asks for.
  `getIntervalCoordinates` never reads the cache, but a successful call
  overwrites it.
- The interval skip happens only after a chunk that was kept.
- A negative `intervalCount` or `startingOffset` makes `file.read` raise ValueError. The file is opened `"rb"`, so `file.read` is `BufferedReader.read`, which rejects any count below -1, and every negative multiple of 130 is such a count (Track.NegativeIntervalRaises, Track.OffsetSkip).
- The interval skip does not look at the chunks it skips, so it can step over the end-of-track marker. The scan then reads on into the data after the track, or into an empty read at the end of the file, which raises IndexError (Track.IntervalStepsOverMarker).
- A timestamp is whatever `strptime` accepts, and `%S` takes one digit when two do not fit: the record stamp `25111200000.0` is 2025-11-12 00:00:00.

## Model

| member | source | states |
|---|---|---|
| FormatRegistry.GetFileSize | proenDE2025-main/src/mp4extract.py:71-79 | a size is accepted only if it is exactly one of the two known sizes, and it is then classified as that variant; any other size raises Mp4UnrecognizableException |
| FormatRegistry.GetStartPoint | proenDE2025-main/src/mp4extract.py:108-118 | succeeds exactly when the size is known; the track offset plus magic and header lies inside the file |
| FormatRegistry.ClassifyRoundTrip | proenDE2025-main/src/mp4extract.py:28-31 | every variant is recognised from its own size and from no other |
| FormatRegistry.KnownSizes | proenDE2025-main/src/mp4extract.py:28-35 | 100663296 bytes seeks to 100065228, 301989888 seeks to 301391820, and every other size raises |
| Bytes.NatToStringRoundTrip | proenDE2025-main/src/mp4extract.py:96 | `int(str(n)) == n` for every natural number |
| Bytes.IntToStringRoundTrip | proenDE2025-main/src/mp4extract.py:305 | the text of an integer counter is a sign and digits, and reads back as the same integer |
| Bytes.DecimalValueAppend | proenDE2025-main/src/mp4extract.py:128 | the value of a split digit run is the high part shifted by the length of the low part |
| Utf8.DecodeAscii | proenDE2025-main/src/mp4extract.py:128-129 | ASCII bytes always decode, one character per byte |
| Utf8.LeadingContinuationFails | proenDE2025-main/src/mp4extract.py:129 | a remainder starting with a continuation byte raises UnicodeDecodeError |
| Timestamps.CenturyYear | proenDE2025-main/src/mp4extract.py:83 | `%y` maps a two-digit year into 1969..2068 and keeps its last two digits |
| Timestamps.DaysInMonth | proenDE2025-main/src/mp4extract.py:83 | months have 28 to 31 days, the seven long months 31, and February 29 exactly in leap years |
| Timestamps.Checked | proenDE2025-main/src/mp4extract.py:83 | the `datetime` constructor succeeds exactly on fields in range (year 1..9999, a day that exists in its month, second below 60) and keeps them |
| Timestamps.ParseCompact | proenDE2025-main/src/mp4extract.py:83 | `%y%m%d%H%M%S` as `_strptime` compiles it: the first combination of the directives' alternatives that matches, which must reach the end of the text, then the range checks; a success is a valid date with no microseconds |
| Timestamps.CompactIsPositional | proenDE2025-main/src/mp4extract.py:83 | on twelve digits `strptime` succeeds exactly when the six positional two-digit fields form a valid date and time, and returns those fields |
| Timestamps.Microseconds | proenDE2025-main/src/mp4extract.py:129 | `%f` on one to six digits is below one million |
| Timestamps.ParseStamp | proenDE2025-main/src/mp4extract.py:129 | `%y%m%d%H%M%S.%f` as `_strptime` compiles it, the fraction right-padded to microseconds; a success is a valid date and time |
| Timestamps.StampIsPositional | proenDE2025-main/src/mp4extract.py:129 | twelve digits forming a valid date and time, a dot and one to six digits are read positionally, the fraction as microseconds |
| Timestamps.OneDigitSecond | proenDE2025-main/src/mp4extract.py:129 | eleven digits, a dot and a digit: `%S` falls back to one digit, so the second is the eleventh digit and the fraction is tenths; the result is valid exactly when those fields are |
| Timestamps.ElevenDigitStamp | proenDE2025-main/src/mp4extract.py:129 | the stamp `25111200000.0` is read as 2025-11-12 00:00:00 |
| Timestamps.TwoDigitsOfValue | proenDE2025-main/src/mp4extract.py:83-90 | a two-digit field, read and then written zero-padded, is the same text |
| Timestamps.YearDigits | proenDE2025-main/src/mp4extract.py:83-90 | `%Y` of a `%y` year is the century `19` or `20` followed by the two digits read |
| Timestamps.FormatOfParsed | proenDE2025-main/src/mp4extract.py:83-90 | formatting a parsed start date gives back the date and time tokens, with the century in front and a dash between them |
| Coordinates.ToCoord | proenDE2025-main/src/mp4extract.py:137-147 | decimal degrees are `deg + minsec/60`; the minutes are the floor of `minsec`; the seconds are in [0, 60); the parts rebuild the decimal value |
| Coordinates.ParseFloatWholePart | proenDE2025-main/src/mp4extract.py:138-140 | an accepted float's floor is the value of its integer digits, and the rest, in [0, 1), is the value of its fraction digits over their scale |
| Coordinates.OneDotAccepted | proenDE2025-main/src/mp4extract.py:138 | a field with one dot is a float exactly when it has a digit |
| Coordinates.TwoDotsRejected | proenDE2025-main/src/mp4extract.py:138 | a field with two dots raises ValueError |
| Coordinates.ParseLatLon | proenDE2025-main/src/mp4extract.py:123-148 | IndexError exactly when the group does not match; on a match, a fix exactly when both minute fields are floats, and the fix is `ToCoord` of the matched degrees, minutes and hemisphere letters; otherwise ValueError |
| Coordinates.LatLonMinutes | proenDE2025-main/src/mp4extract.py:138-146 | each axis's minutes are the integer digits of its minutes field, and its seconds are 60 times the fraction digits over their scale |
| Chunk.Window | proenDE2025-main/src/mp4extract.py:124 | `chunk[:50]`, which is the whole chunk when it is shorter |
| Chunk.FirstBaseMatch | proenDE2025-main/src/mp4extract.py:122-127 | the leftmost position where the record pattern matches, or none at all |
| Chunk.LineEnd | proenDE2025-main/src/mp4extract.py:122 | the greedy `(.*)` stops at the first newline or at the end of the window |
| Chunk.DecodeChunk | proenDE2025-main/src/mp4extract.py:120-127 | no match, or a chunk shorter than a record, raises IndexError; the only exceptions are IndexError and ValueError |
| Chunk.DecodeMatch | proenDE2025-main/src/mp4extract.py:128-169 | the steps after the pattern search raise only IndexError or ValueError |
| Chunk.DecodeAtMatch | proenDE2025-main/src/mp4extract.py:128-169 | the index is the eight digits; a chunk is undecodable exactly when its remainder is not UTF-8; a stamp `strptime` rejects raises ValueError; status `V` gives a record without a fix, status `A` the fix of the latitude/longitude group or its exception; the stamp is the remainder with four characters dropped |
| Chunk.OnlyWindowMatters | proenDE2025-main/src/mp4extract.py:124 | bytes after the fiftieth never change the outcome |
| Chunk.BlankChunkFails | proenDE2025-main/src/mp4extract.py:125-127 | a chunk of spaces raises IndexError |
| Chunk.AsciiRemainderDecodes | proenDE2025-main/src/mp4extract.py:122-129 | a remainder is at most 20 bytes, and an ASCII remainder never raises UnicodeDecodeError |
| FilenameParser.FirstMatch | proenDE2025-main/src/mp4extract.py:99-100 | the leftmost position where the file-name pattern matches, or none at all |
| FilenameParser.GetFilenameParsed | proenDE2025-main/src/mp4extract.py:98-100 | succeeds exactly when the name contains a match; the groups are those of the leftmost match; otherwise IndexError |
| FilenameParser.LeftmostMatch | proenDE2025-main/src/mp4extract.py:100 | the leftmost match decides the parse |
| FilenameParser.GetStartDate | proenDE2025-main/src/mp4extract.py:81-83 | fails with IndexError when the name does not match and with ValueError when `strptime` rejects the date; a success is a valid date and time |
| FilenameParser.DerivedFromLeftmostMatch | proenDE2025-main/src/mp4extract.py:81-103 | head flag, serial, start date and formatted identity all come from the leftmost match; the start date is its twelve digits read positionally when they form a valid date, and ValueError otherwise; the identity is century, date, `-`, time, `-`, then the serial without leading zeros |
| FilenameParser.NoMatchRaises | proenDE2025-main/src/mp4extract.py:81-103 | a name without a match raises IndexError from every accessor |
| FilenameParser.FilenameFormatSerial | proenDE2025-main/src/mp4extract.py:95-103 | the part of the formatted identity after position 16 reads back as the serial |
| Track.ReadEnd | proenDE2025-main/src/mp4extract.py:190 | `file.read(n)` with `n >= 0` moves the cursor by n, or to the end of the file when fewer than n bytes remain |
| Track.Advance | proenDE2025-main/src/mp4extract.py:225-241 | `BufferedReader.read(n)` raises ValueError exactly when n is below -1, reads to the end for -1, and otherwise moves the cursor as `ReadEnd` does, never past the end |
| Track.NegativeChunksRejected | proenDE2025-main/src/mp4extract.py:225-241 | a read of `CHUNKSIZE * k` bytes raises exactly when k is negative |
| Track.Absorb | proenDE2025-main/src/mp4extract.py:193-199 | a non-fatal chunk adds one to `count`, invalid records add one to `invalid_count`, and kept records are appended |
| Track.TrackStart | proenDE2025-main/src/mp4extract.py:176-185 | succeeds exactly when the size is known and `CSMDAT` sits at the seek offset; the cursor is then 40 bytes after the offset; otherwise Mp4UnrecognizableException |
| Track.Outcomes | proenDE2025-main/src/mp4extract.py:188-194 | the outcome of each of the first k full chunks after the cursor |
| Track.FullScanReadsSlots | proenDE2025-main/src/mp4extract.py:188-202 | a scan that starts before the first end marker succeeds exactly when no chunk before the marker raises; its tally then adds those chunks' records and counts |
| Track.FullScanFindsSentinel | proenDE2025-main/src/mp4extract.py:188-193 | a successful scan stopped at the first end marker and counted exactly the chunks before it |
| Track.ScanErrors | proenDE2025-main/src/mp4extract.py:188-202 | a failing scan fails with IndexError or ValueError |
| Track.Valid | proenDE2025-main/src/mp4extract.py:195-198 | keeps exactly the records that have a fix |
| Track.IncludeInvalidFilters | proenDE2025-main/src/mp4extract.py:195-199 | `includeInvalid=False` gives the `True` list with the invalid records dropped; the count of chunks is the records plus the undecodable chunks |
| Track.ScanIncludeInvalid | proenDE2025-main/src/mp4extract.py:171-207 | both settings of `includeInvalid` fail alike and count alike; the lists differ only by the invalid records |
| Track.ZeroIntervalIsFull | proenDE2025-main/src/mp4extract.py:226-241 | `intervalCount=0` reads every chunk, like the full scan |
| Track.ZeroIntervalSameList | proenDE2025-main/src/mp4extract.py:209-246 | `getIntervalCoordinates(0, 0)` returns exactly what `getAllCoordinates` returns on an uncached file |
| Track.NegativeIntervalRaises | proenDE2025-main/src/mp4extract.py:241 | with a negative `intervalCount`, the skip after the first kept chunk raises ValueError |
| Track.OffsetSkip | proenDE2025-main/src/mp4extract.py:225 | once the header is recognised, a negative `startingOffset` raises ValueError before any chunk is read; a non-negative one starts the interval scan that many chunks in |
| Track.IntervalReadsSlots | proenDE2025-main/src/mp4extract.py:226-241 | with `intervalCount >= 0`, while every chunk read is kept, the j-th chunk read is the one at slot `j * (intervalCount + 1)`, and after k of them the scan continues at slot `k * (intervalCount + 1)` with those chunks tallied |
| Track.StridedKept | proenDE2025-main/src/mp4extract.py:233-237 | the records such a run adds are its chunks' records, one each, in order |
| Track.IntervalStopsAtMarker | proenDE2025-main/src/mp4extract.py:229-230 | an end marker at the next stride slot ends the interval scan with the run tallied |
| Track.IntervalStepsOverMarker | proenDE2025-main/src/mp4extract.py:226-241 | on a record, a marker, the record and a marker, the full scan returns one record while `intervalCount=1` skips both markers, reads an empty chunk and raises IndexError |
| Frames.Range | proenDE2025-main/src/mp4extract.py:264 | `range(0, n, step)` raises ValueError exactly when the step is zero |
| Frames.RangeIsMultiplesBeforeStop | proenDE2025-main/src/mp4extract.py:264 | the k-th multiple of the step is in the range exactly when it is still before the stop |
| Frames.SampledFrames | proenDE2025-main/src/mp4extract.py:260-266 | one reader result per index of the range, in order; ValueError exactly for step 0 |
| Frames.PlannedPaths | proenDE2025-main/src/mp4extract.py:299-306 | one path per counter value |
| Frames.SlotsPresent | proenDE2025-main/src/mp4extract.py:300-303 | every planned slot is the position of a present frame |
| Frames.SlotsComplete | proenDE2025-main/src/mp4extract.py:300-303 | every present frame has a slot |
| Frames.SlotsAscending | proenDE2025-main/src/mp4extract.py:300-303 | slots strictly ascend, so there is exactly one per present frame, in order |
| Frames.CountersBySlot | proenDE2025-main/src/mp4extract.py:299-305 | the k-th written counter is `(slot + 1) * step`, so the counter also counts the skipped `None` frames |
| Frames.PlannedPathAt | proenDE2025-main/src/mp4extract.py:299-306 | the k-th planned path carries the k-th slot's counter |
| Frames.PathTextInjective | proenDE2025-main/src/mp4extract.py:305 | in one directory and for one date, two paths have the same text only if their counters are equal |
| Frames.DistinctPaths | proenDE2025-main/src/mp4extract.py:299-306 | with a nonzero step, no two frames are written to the same file |
| Frames.NamesFollowVideoIndex | proenDE2025-main/src/mp4extract.py:264 | a frame sampled and written with the same step is named by its video frame index plus the step |
| Frames.WriteResult | proenDE2025-main/src/mp4extract.py:274-307 | no frames gives an empty list; with a frame present, a failed date gives exactly that exception; otherwise it fails only with a write error; success writes every planned path, and a parsed date with every planned path written returns exactly the planned paths |
| Frames.WriteOutcome | proenDE2025-main/src/mp4extract.py:283-311 | a failure other than a write error happens exactly when `getStartDateFormat` fails, and is its IndexError or ValueError (only when a frame is present); success returns the planned paths, all written, and a parsed date with every planned path written returns exactly the planned paths |
| Frames.WrittenPaths | proenDE2025-main/src/mp4extract.py:297-307 | a successful write returns exactly one path per present frame |
| Percent.RoundHalfEven | proenDE2025-main/src/mp4extract.py:342 | `round` gives the nearest integer, and the even one on a tie |
| Percent.RoundInteger | proenDE2025-main/src/mp4extract.py:342 | rounding an integer gives the same integer |
| Percent.PyIndex | proenDE2025-main/src/mp4extract.py:342 | `items[k]` succeeds exactly for `-len <= k < len`, with negative indices counted from the end; otherwise IndexError |
| Percent.ItemByPercent | proenDE2025-main/src/mp4extract.py:339-342 | `items[round(len * percent)]`, and IndexError exactly when the rounded index is out of range |
| Percent.FullPercentRaises | proenDE2025-main/src/mp4extract.py:340-342 | percent 1.0 raises IndexError for every list |
| Percent.TwoItemsNearFullRaise | proenDE2025-main/src/mp4extract.py:340-342 | with two items, every percent from 0.75 to 1.0 raises IndexError |
| Percent.ItemByPercentClamped | proenDE2025-main/src/mp4extract.py:340-342 | the clamped lookup fails only on an empty list or a rounded index below `-len` |
| Percent.ClampedSelects | proenDE2025-main/src/mp4extract.py:340 | on a non-empty list every percent in [0, 1] selects an item: the rounded one, or the last |
| Percent.ClampedAgrees | proenDE2025-main/src/mp4extract.py:342 | where the source selects an item, the clamped lookup selects the same one |
| Percent.FirstIndex | proenDE2025-main/src/mp4extract.py:346 | `list.index` finds the first position of the item, and finds none when the item is absent |
| Percent.PercentOfItem | proenDE2025-main/src/mp4extract.py:345-348 | defined exactly for items in the list; the value is the first index over the length, in [0, 1); otherwise ValueError |
| Percent.PercentRoundTrip | proenDE2025-main/src/mp4extract.py:339-348 | looking an item up by its own percent returns that item |
| Percent.PercentRoundTripClamped | proenDE2025-main/src/mp4extract.py:339-348 | the corrected lookup keeps the round trip |
| Mp4.Mp4File.constructor | proenDE2025-main/src/mp4extract.py:63-69 | a new object has its name and bytes, and no cached coordinates |
| Mp4.Mp4File.OpenTrack | proenDE2025-main/src/mp4extract.py:176-185 | the seek, the magic check and the header skip give the track start |
| Mp4.Mp4File.GetAllCoordinates | proenDE2025-main/src/mp4extract.py:171-207 | a cached list is returned unchanged; otherwise the scan result is returned, and a success replaces the cache while a failure leaves it empty |
| Mp4.Mp4File.GetIntervalCoordinates | proenDE2025-main/src/mp4extract.py:209-246 | the interval scan result, without reading the cache, with a negative skip raising ValueError; a success replaces the cache and a failure leaves it alone |
| Mp4.Mp4File.ExtractFrames | proenDE2025-main/src/mp4extract.py:260-272 | the loop that creates one frame task per index returns the reader's result at every index of `range(0, frameCount, step)` |
| Mp4.Mp4File.PlanFrames | proenDE2025-main/src/mp4extract.py:297-306 | the counter loop plans the slots' paths; the date is asked for only when a frame is present |
| Mp4.Mp4File.WriteFrames | proenDE2025-main/src/mp4extract.py:283-311 | the method is the `WriteOutcome` of the recording's name |
| Mp4.Mp4File.WriteWith | proenDE2025-main/src/mp4extract.py:274-311 | plans the paths, then hands every planned path to the writer, and fails with a write error if any write failed |
| Mp4.CacheAfterInterval | proenDE2025-main/src/mp4extract.py:363-364 | the cache is one slot: a full scan after a successful interval scan returns the interval scan's list |

## Left out

- Opening and sizing the file: `os.path.getsize`, `open` and `Path.exists` in the constructor are not modelled. The bytes and the name are given, so Mp4FileException cannot occur.
- OpenCV: `getVideoFile`, `_extractFrame`, `getVideoFrameCount` and `cv2.imwrite` are inputs. The frame count and a reader function are parameters of ExtractFrames, and the writer's outcome is a predicate over path texts.
- Concurrency: `asyncio` tasks and `gather` run in order in the model. The reader tasks of `extractFrames` share no state. The writer tasks of `writeFrames` do not wait on each other before `imwrite`, so each of them writes before `gather` raises; the model attempts every write. When several writes fail, which of the equal `Exception()`s surfaces is not modelled.
- Mp4.Mp4File.GetAllCoordinates: the cache is a value. The source stores and returns the same list object (mp4extract.py:174-175, 206-207, 245), so a caller that changes a returned list also changes the cached one. The model does not capture that aliasing.
- Frames.PathText: the written path is the text `dir + "/" + name`. `Path.joinpath` and `str()` also normalise it: a trailing slash, `.` parts and repeated slashes disappear. The model takes `dir` as already normalised.
- `writeFrames` also deletes and recreates `targetDir` (`rmtree`, `os.mkdir`). This filesystem effect is not modelled.
- Mp4.Mp4File.WriteWith: the date is computed once, before the loop, where the source calls `getStartDateFormat()` at every present frame. The function is pure, so the result is the same, and the date is still consulted only when a frame is present.
- Logging calls of every operation are not modelled.
- `getVideoFps`, `getVideoLength`, `getRatio` and `getTimePerCoordinate` are left out. They are float arithmetic over OpenCV's frame count.
- Floating point: latitude, longitude, minutes, seconds and `percent` are exact reals. Binary rounding of `float()`, `/` and `*` is not modelled.
- Coordinates.ToCoord: states the exact-real decomposition. It does not model the float error of `lat_minsec % 1 * 60`.
- Bytes.IsDigit: `\d` is the ASCII class. That is exact for the bytes patterns of `_parseCoordinate`. On `str`, Python's `\d` and `int()` also take other Unicode decimal digits: in the file-name pattern, and in the `\d` parts of the `%y`, `%d`, `%H`, `%M` and `%S` directives that `strptime` applies to the file name's digits and to the decoded record remainder, which UTF-8 can make hold such digits. The model rejects those texts where Python reads them.
- Timestamps.FormatCompact: exact for years 1000..9999 and fields below 100. `%Y` goes through the platform `strftime`, which need not zero-pad years below 1000, while the model always writes four digits. Every year the `%y` layouts produce, 1969..2068, is in range.
- Python's `int` is unbounded, like Dafny's, so nothing wraps.

## Findings

| source | as written | input that shows it | evidently intended | confidence | as-written member | corrected member |
|---|---|---|---|---|---|---|
| proenDE2025-main/src/mp4extract.py:339-342 | `items[round(len(items) * percent)]` with percent documented as "between 0.0 ~ 1.0" | `getItemByPercent([a, b], 1.0)` computes index 2 and raises IndexError; so does every percent of 0.75 or more on two items | every percent in [0, 1] selects an item; 1.0 selects the last one | not executed | Percent.FullPercentRaises, Percent.TwoItemsNearFullRaise | Percent.ItemByPercentClamped, Percent.ClampedSelects |
