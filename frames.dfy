/** Which video frames `extractFrames` samples and the names `writeFrames`
    gives them.  Decoding and storing images is left to parameters: a
    frame reader for sampling and a per-path outcome for writing. */
module Frames {
  import opened Errors
  import opened Bytes
  import opened FilenameParser

  /** `len(range(0, stop, step))` for a nonzero step. */
  function RangeLength(stop: int, step: int): nat
    requires step != 0
  {
    if step > 0 then (if stop <= 0 then 0 else (stop - 1) / step + 1)
    else (if stop >= 0 then 0 else (-stop - 1) / -step + 1)
  }

  /** `range(0, stop, step)`; a zero step raises ValueError. */
  function Range(stop: int, step: int): (r: Result<seq<int>>)
    ensures r.Err? <==> step == 0
    ensures r.Err? ==> r.error == ValueError
  {
    if step == 0 then Err(ValueError) else Ok(seq(RangeLength(stop, step), k => k * step))
  }

  /** `k * n < stop` exactly for the first `(stop - 1) / n + 1` values of `k`. */
  lemma MultiplesBelow(stop: int, n: int, k: nat)
    requires n > 0
    ensures k * n < stop <==> stop > 0 && k < (stop - 1) / n + 1
  {
    if stop > 0 {
      var q := (stop - 1) / n;
      assert q * n <= stop - 1 < q * n + n;
      if k <= q {
        MulMonotone(k, q, n);
      } else {
        MulMonotone(q + 1, k, n);
      }
    }
  }

  lemma MulMonotone(a: nat, b: nat, n: int)
    requires a <= b && n > 0
    ensures a * n <= b * n
  {
  }

  /** The range holds the multiples of `step` from 0 up to, not including,
      `stop`: the `k`-th is there exactly when it is still before `stop`. */
  lemma RangeIsMultiplesBeforeStop(stop: int, step: int, k: nat)
    requires step != 0
    ensures k < RangeLength(stop, step) <==> (if step > 0 then k * step < stop else k * step > stop)
  {
    if step > 0 {
      MultiplesBelow(stop, step, k);
    } else {
      MultiplesBelow(-stop, -step, k);
      assert k * -step == -(k * step);
    }
  }

  /** The frames `extractFrames` returns: the reader's frame (or None) at
      every index of the range. */
  function SampledFrames<F>(stop: int, step: int, readFrame: int -> Option<F>): (r: Result<seq<Option<F>>>)
    ensures r.Err? <==> step == 0
    ensures r.Ok? ==> |r.value| == |Range(stop, step).value|
                      && forall j :: 0 <= j < |r.value| ==> r.value[j] == readFrame(Range(stop, step).value[j])
  {
    match Range(stop, step)
    case Err(e) => Err(e)
    case Ok(idx) => Ok(seq(|idx|, j requires 0 <= j < |idx| => readFrame(idx[j])))
  }

  // ---------------------------------------------------------------------
  // writeFrames

  /** `targetDir.joinpath(f"{startDate}_{frameCount}.jpg")`: the path of
      one written frame. */
  datatype ImagePath = ImagePath(dir: string, date: string, counter: int)

  /** `str(path)`, the name handed to the image writer. */
  function PathText(p: ImagePath): string {
    p.dir + "/" + p.date + "_" + IntToString(p.counter) + ".jpg"
  }

  predicate HasFrame<F>(frames: seq<Option<F>>) {
    exists j :: 0 <= j < |frames| && frames[j].Some?
  }

  /** A prefix one slot longer holds a frame exactly when the shorter one
      does or the new slot is filled. */
  lemma HasFrameStep<F>(frames: seq<Option<F>>, j: nat)
    requires j < |frames|
    ensures HasFrame(frames[..j + 1]) <==> HasFrame(frames[..j]) || frames[j].Some?
  {
    if HasFrame(frames[..j + 1]) && !frames[j].Some? {
      var i :| 0 <= i < j + 1 && frames[..j + 1][i].Some?;
      assert frames[..j][i].Some?;
    }
    if frames[j].Some? {
      assert frames[..j + 1][j].Some?;
    }
    if HasFrame(frames[..j]) {
      var i :| 0 <= i < j && frames[..j][i].Some?;
      assert frames[..j + 1][i].Some?;
    }
  }

  /** The counter values `frameCount` holds at the frames that are
      written: it runs up by `step` for every slot, empty or not. */
  function Counters<F>(frames: seq<Option<F>>, step: int): seq<int> {
    if frames == [] then []
    else
      Counters(frames[..|frames| - 1], step)
        + (if frames[|frames| - 1].Some? then [|frames| * step] else [])
  }

  /** The paths planned for `frames`, one per counter value. */
  function PlannedPaths<F>(dir: string, date: string, frames: seq<Option<F>>, step: int): (p: seq<ImagePath>)
    ensures |p| == |Counters(frames, step)|
  {
    var c := Counters(frames, step);
    seq(|c|, k requires 0 <= k < |c| => ImagePath(dir, date, c[k]))
  }

  /** The positions of the frames that are present, ascending. */
  function Slots<F>(frames: seq<Option<F>>): seq<nat> {
    if frames == [] then []
    else Slots(frames[..|frames| - 1]) + (if frames[|frames| - 1].Some? then [|frames| - 1] else [])
  }

  /** Every slot is the position of a present frame. */
  lemma {:induction false} SlotsPresent<F>(frames: seq<Option<F>>)
    ensures forall i :: 0 <= i < |Slots(frames)| ==> Slots(frames)[i] < |frames| && frames[Slots(frames)[i]].Some?
  {
    if frames != [] {
      var init := frames[..|frames| - 1];
      SlotsPresent(init);
      var s, sInit := Slots(frames), Slots(init);
      assert s == sInit + (if frames[|frames| - 1].Some? then [|frames| - 1] else []);
      forall i | 0 <= i < |s|
        ensures s[i] < |frames| && frames[s[i]].Some?
      {
        if i < |sInit| {
          assert s[i] == sInit[i] && frames[sInit[i]] == init[sInit[i]];
        }
      }
    }
  }

  /** Every present frame has a slot. */
  lemma {:induction false} SlotsComplete<F>(frames: seq<Option<F>>)
    ensures forall j :: 0 <= j < |frames| && frames[j].Some? ==> j in Slots(frames)
  {
    if frames != [] {
      var init := frames[..|frames| - 1];
      SlotsComplete(init);
      var s, sInit := Slots(frames), Slots(init);
      assert s == sInit + (if frames[|frames| - 1].Some? then [|frames| - 1] else []);
      forall j | 0 <= j < |frames| && frames[j].Some?
        ensures j in s
      {
        if j < |init| {
          assert init[j].Some?;
          assert j in sInit;
        }
      }
    }
  }

  /** The slots ascend strictly, so each present frame has exactly one. */
  lemma {:induction false} SlotsAscending<F>(frames: seq<Option<F>>)
    ensures forall i, i' :: 0 <= i < i' < |Slots(frames)| ==> Slots(frames)[i] < Slots(frames)[i']
  {
    if frames != [] {
      var init := frames[..|frames| - 1];
      SlotsAscending(init);
      SlotsPresent(init);
      var s, sInit := Slots(frames), Slots(init);
      assert s == sInit + (if frames[|frames| - 1].Some? then [|frames| - 1] else []);
      forall i, i' | 0 <= i < i' < |s|
        ensures s[i] < s[i']
      {
        assert s[i] == sInit[i];
        if i' < |sInit| {
          assert s[i'] == sInit[i'];
        }
      }
    }
  }

  /** The step of `CountersBySlot`: one more slot, one more counter. */
  lemma ConcatBySlot(c: seq<int>, s: seq<nat>, cInit: seq<int>, sInit: seq<nat>, present: bool, n: nat, step: int)
    requires n > 0
    requires |cInit| == |sInit| && forall k :: 0 <= k < |sInit| ==> cInit[k] == (sInit[k] + 1) * step
    requires c == cInit + (if present then [n * step] else [])
    requires s == sInit + (if present then [n - 1] else [])
    ensures |c| == |s| && forall k :: 0 <= k < |s| ==> c[k] == (s[k] + 1) * step
  {
    forall k | 0 <= k < |s|
      ensures c[k] == (s[k] + 1) * step
    {
      if k < |sInit| {
        assert c[k] == cInit[k] && s[k] == sInit[k];
      } else {
        assert s[k] + 1 == n;
      }
    }
  }

  /** One counter per present frame, in order: `(slot + 1) * step`. */
  lemma {:induction false} CountersBySlot<F>(frames: seq<Option<F>>, step: int)
    ensures |Counters(frames, step)| == |Slots(frames)|
    ensures forall k :: 0 <= k < |Slots(frames)| ==> Counters(frames, step)[k] == (Slots(frames)[k] + 1) * step
  {
    if frames != [] {
      var init := frames[..|frames| - 1];
      CountersBySlot(init, step);
      ConcatBySlot(Counters(frames, step), Slots(frames), Counters(init, step), Slots(init),
                   frames[|frames| - 1].Some?, |frames|, step);
    }
  }

  /** The `k`-th planned path carries the counter of the `k`-th slot. */
  lemma PlannedPathAt<F>(dir: string, date: string, frames: seq<Option<F>>, step: int, k: nat)
    requires k < |Slots(frames)|
    ensures k < |PlannedPaths(dir, date, frames, step)|
    ensures PlannedPaths(dir, date, frames, step)[k] == ImagePath(dir, date, (Slots(frames)[k] + 1) * step)
  {
    CountersBySlot(frames, step);
  }

  /** Paths in one directory for one date name different files exactly
      when their counters differ. */
  lemma PathTextInjective(p: ImagePath, q: ImagePath)
    requires p.dir == q.dir && p.date == q.date && PathText(p) == PathText(q)
    ensures p == q
  {
    var prefix := p.dir + "/" + p.date + "_";
    var a, b := IntToString(p.counter), IntToString(q.counter);
    assert PathText(p) == prefix + a + ".jpg";
    assert PathText(q) == prefix + b + ".jpg";
    assert |a| == |b|;
    assert a == (prefix + a + ".jpg")[|prefix|..|prefix| + |a|];
    assert b == (prefix + b + ".jpg")[|prefix|..|prefix| + |b|];
    IntToStringRoundTrip(p.counter);
    IntToStringRoundTrip(q.counter);
  }

  /** With a nonzero step no two frames are written to the same path. */
  lemma DistinctPaths<F>(dir: string, date: string, frames: seq<Option<F>>, step: int, k: nat, k': nat)
    requires step != 0
    requires k < k' < |PlannedPaths(dir, date, frames, step)|
    ensures PathText(PlannedPaths(dir, date, frames, step)[k]) != PathText(PlannedPaths(dir, date, frames, step)[k'])
  {
    CountersBySlot(frames, step);
    SlotsAscending(frames);
    var s, p := Slots(frames), PlannedPaths(dir, date, frames, step);
    DistinctProducts(s[k] + 1, s[k'] + 1, step);
    if PathText(p[k]) == PathText(p[k']) {
      PathTextInjective(p[k], p[k']);
    }
  }

  lemma DistinctProducts(a: int, b: int, step: int)
    requires a < b && step != 0
    ensures a * step != b * step
  {
    assert b * step - a * step == (b - a) * step;
  }

  /** Frames sampled with `step` and written with the same step are named
      by their video frame index plus `step`. */
  lemma NamesFollowVideoIndex<F>(stop: int, step: int, readFrame: int -> Option<F>, dir: string, date: string, k: nat)
    requires step != 0
    requires k < |Slots(SampledFrames(stop, step, readFrame).value)|
    ensures var frames := SampledFrames(stop, step, readFrame).value;
            var j := Slots(frames)[k];
            && k < |PlannedPaths(dir, date, frames, step)|
            && j < |Range(stop, step).value|
            && PlannedPaths(dir, date, frames, step)[k] == ImagePath(dir, date, Range(stop, step).value[j] + step)
  {
    var frames := SampledFrames(stop, step, readFrame).value;
    NameAtSlot(Range(stop, step).value, dir, date, frames, step, k);
  }

  /** The same for any frames laid over the indices `idx` of a range. */
  lemma NameAtSlot<F>(idx: seq<int>, dir: string, date: string, frames: seq<Option<F>>, step: int, k: nat)
    requires |frames| == |idx| && forall j :: 0 <= j < |idx| ==> idx[j] == j * step
    requires k < |Slots(frames)|
    ensures Slots(frames)[k] < |idx|
    ensures k < |PlannedPaths(dir, date, frames, step)|
    ensures PlannedPaths(dir, date, frames, step)[k] == ImagePath(dir, date, idx[Slots(frames)[k]] + step)
  {
    PlannedPathAt(dir, date, frames, step, k);
    SlotsPresent(frames);
    var j := Slots(frames)[k];
    ShiftedIndex(idx, step, j);
  }

  lemma ShiftedIndex(idx: seq<int>, step: int, j: nat)
    requires j < |idx| && forall i :: 0 <= i < |idx| ==> idx[i] == i * step
    ensures (j + 1) * step == idx[j] + step
  {
    assert idx[j] == j * step;
  }

  /** Extending the slots by one extends the plan by that slot's path, if
      it holds a frame. */
  lemma PlannedPathsStep<F>(dir: string, date: string, frames: seq<Option<F>>, step: int, j: nat)
    requires j < |frames|
    ensures PlannedPaths(dir, date, frames[..j + 1], step)
            == PlannedPaths(dir, date, frames[..j], step)
               + (if frames[j].Some? then [ImagePath(dir, date, (j + 1) * step)] else [])
  {
    assert frames[..j + 1][..j] == frames[..j];
  }

  /** `step=None` counts in ones. */
  function StepOf(step: Option<int>): int {
    if step.None? then 1 else step.value
  }

  /** The writer accepted every one of `paths`. */
  predicate AllWritten(paths: seq<ImagePath>, imwrite: string -> bool) {
    forall k :: 0 <= k < |paths| ==> imwrite(PathText(paths[k]))
  }

  /** What `writeFrames` returns once the start date is known, as
      `getStartDateFormat()` returns it.  The date is consulted only when a
      frame is present, so only then can an unparsable name raise; every
      planned path must be written, or the whole call raises. */
  function WriteResult<F>(startDate: Result<string>, dir: string, frames: seq<Option<F>>, step: Option<int>,
                          imwrite: string -> bool): (r: Result<seq<ImagePath>>)
    ensures !HasFrame(frames) ==> r == Ok([])
    ensures r.Err? ==> r.error == WriteError || (startDate.Err? && r.error == startDate.error)
    ensures r.Ok? && HasFrame(frames) ==>
              startDate.Ok?
              && r.value == PlannedPaths(dir, startDate.value, frames, StepOf(step))
              && forall k :: 0 <= k < |r.value| ==> imwrite(PathText(r.value[k]))
    ensures HasFrame(frames) && startDate.Err? ==> r == Err(startDate.error)
    ensures HasFrame(frames) && startDate.Ok?
            && AllWritten(PlannedPaths(dir, startDate.value, frames, StepOf(step)), imwrite) ==>
              r == Ok(PlannedPaths(dir, startDate.value, frames, StepOf(step)))
  {
    if !HasFrame(frames) then Ok([])
    else
      match startDate
      case Err(e) => Err(e)
      case Ok(date) =>
        var paths := PlannedPaths(dir, date, frames, StepOf(step));
        if forall k :: 0 <= k < |paths| ==> imwrite(PathText(paths[k])) then Ok(paths) else Err(WriteError)
  }

  /** What `writeFrames` returns for the recording `name`. */
  function WriteOutcome<F>(name: string, dir: string, frames: seq<Option<F>>, step: Option<int>,
                           imwrite: string -> bool): (r: Result<seq<ImagePath>>)
    ensures !HasFrame(frames) ==> r == Ok([])
    ensures r.Err? ==> (r.error != WriteError <==> GetStartDateFormat(name).Err?)
    ensures r.Err? && GetStartDateFormat(name).Err? ==> r.error == GetStartDateFormat(name).error
    ensures r.Err? ==> r.error in {IndexError, ValueError, WriteError}
    ensures r.Ok? && HasFrame(frames) ==>
              GetStartDateFormat(name).Ok?
              && r.value == PlannedPaths(dir, GetStartDateFormat(name).value, frames, StepOf(step))
              && forall k :: 0 <= k < |r.value| ==> imwrite(PathText(r.value[k]))
    ensures HasFrame(frames) && GetStartDateFormat(name).Ok?
            && AllWritten(PlannedPaths(dir, GetStartDateFormat(name).value, frames, StepOf(step)), imwrite) ==>
              r == Ok(PlannedPaths(dir, GetStartDateFormat(name).value, frames, StepOf(step)))
  {
    WriteResult(GetStartDateFormat(name), dir, frames, step, imwrite)
  }

  /** A successful write returns one distinct path per present frame. */
  lemma WrittenPaths<F>(name: string, dir: string, frames: seq<Option<F>>, step: Option<int>, imwrite: string -> bool)
    requires WriteOutcome(name, dir, frames, step, imwrite).Ok?
    ensures |WriteOutcome(name, dir, frames, step, imwrite).value| == |Slots(frames)|
  {
    CountersBySlot(frames, StepOf(step));
  }
}
