/**
  The motion detector: how one video's per-frame activity areas become motion
  segments.

  The pixel work (decoding, resizing, background subtraction, thresholding,
  contour areas, the mean luma of the first frames) is done by OpenCV and is
  not modelled; a `Capture` supplies its results: the largest contour area of
  every frame read (under the binary threshold the chosen profile names), the
  mean luma of every frame, the frame rate the container reports, whether a
  given frame can be read back for a preview, and the YOLO detector if one
  is loaded.

  The segment loop is the method `AnalyzeVideo`; it is proved equal to the
  specification function `Segments`, built from `Sweep` (the state machine
  over the first n frames), `Closings` (with the end-of-stream flush) and
  `FinalizeAll` (the duration filter and preview selection).
 */
module Detector {
  import opened Wrappers
  import opened Text

  // ---------------------------------------------------------------------------
  // Configuration and constants

  /** The configuration keys the detector reads. */
  datatype Config = Config(
    sampleEveryNFrames: int,
    minMotionArea: int,
    endGraceFrames: int,
    minSegmentDuration: real,
    enableYolo: bool)

  /** The defaults `config.get` falls back to. */
  const DefaultConfig := Config(2, 800, 6, 0.5, true)

  /** Below this mean luma a video counts as dark. */
  const DarkBrightness: real := 60.0
  /** The brightness assumed when no frame could be read for the estimate. */
  const FallbackBrightness: real := 80.0
  /** How many leading frames the brightness estimate reads. */
  const BrightnessSampleSize: nat := 5
  /** How many preview frames a segment records at most. */
  const MaxPreviewFrames: nat := 5
  /** The frame rate used when the container reports 0. */
  const DefaultFps: real := 30.0
  /** A YOLO box is kept when its confidence exceeds this. */
  const MinLabelConfidence: real := 0.5

  const CannotOpenVideo := "Cannot open video: "
  /** The text of the `ZeroDivisionError` that `frame_idx % 0` raises, as Python 3.12 and later word it (3.11 and earlier say "integer division or modulo by zero"). */
  const ModuloByZero := "integer modulo by zero"

  // ---------------------------------------------------------------------------
  // Data

  /** One YOLO box: the class name and its confidence. */
  datatype Detection = Detection(name: string, confidence: real)

  /** What OpenCV and YOLO report about one video file. */
  datatype Capture = Capture(
    isOpened: bool,
    reportedFps: real,
    lumas: seq<real>,
    areas: seq<real>,
    readable: nat -> bool,
    yolo: Option<nat -> Option<seq<Detection>>>)

  /** A finished motion segment, as `analyze_video` returns it. */
  datatype MotionSegment = MotionSegment(
    startTime: real,
    endTime: real,
    maxMotionArea: real,
    detectedObjects: string,
    previewFrames: seq<nat>)

  /** The `current_segment` record of an open segment. */
  datatype OpenSegment = OpenSegment(
    startFrame: nat,
    startTime: real,
    maxArea: real,
    previewFrames: seq<nat>,
    graceCounter: nat)

  /** An open segment handed to `_finalize_segment`, with the frame whose time ends it. */
  datatype Closing = Closing(seg: OpenSegment, endFrame: nat)

  /** The loop's state: the open segment, if any, and the segments closed so far. */
  datatype State = State(current: Option<OpenSegment>, closed: seq<Closing>)

  /** The numbers the state machine runs on. */
  datatype Params = Params(
    sampleEvery: int,
    minArea: int,
    endGraceFrames: int,
    minDuration: real,
    fps: real)

  /** The threshold profile `_get_adaptive_thresholds` chooses. */
  datatype Thresholds = Thresholds(minMotionArea: int, binaryThreshold: int)

  // ---------------------------------------------------------------------------
  // Brightness and threshold profile

  function Sum(xs: seq<real>): real {
    if xs == [] then 0.0 else Sum(xs[..|xs| - 1]) + xs[|xs| - 1]
  }

  /** `_calculate_brightness`: the mean luma of the first five frames, or 80 when none can be read. */
  function Brightness(lumas: seq<real>): real {
    var sample := if |lumas| <= BrightnessSampleSize then lumas else lumas[..BrightnessSampleSize];
    if |sample| == 0 then FallbackBrightness else Sum(sample) / |sample| as real
  }

  lemma {:induction false} SumBounds(xs: seq<real>, lo: real, hi: real)
    requires forall i :: 0 <= i < |xs| ==> lo <= xs[i] <= hi
    ensures lo * |xs| as real <= Sum(xs) <= hi * |xs| as real
  {
    if xs != [] {
      SumBounds(xs[..|xs| - 1], lo, hi);
    }
  }

  /** A brightness estimate over luma values in [0, 255] is itself in [0, 255]. */
  lemma BrightnessInRange(lumas: seq<real>)
    requires forall i :: 0 <= i < |lumas| ==> 0.0 <= lumas[i] <= 255.0
    ensures 0.0 <= Brightness(lumas) <= 255.0
  {
    var sample := if |lumas| <= BrightnessSampleSize then lumas else lumas[..BrightnessSampleSize];
    if |sample| > 0 {
      SumBounds(sample, 0.0, 255.0);
      var n := |sample| as real;
      assert Sum(sample) / n <= 255.0 by {
        assert Sum(sample) <= 255.0 * n;
      }
    }
  }

  /** `int(m * 1.5)`: Python's `int` truncates toward zero. */
  function ScaleDark(m: int): (r: int)
    ensures m >= 0 ==> r as real <= m as real * 1.5 < r as real + 1.0
    ensures m < 0 ==> r as real - 1.0 < m as real * 1.5 <= r as real
  {
    if m >= 0 then (3 * m) / 2 else -((-3 * m) / 2)
  }

  /** `_get_adaptive_thresholds`: the dark profile below brightness 60, the configured one otherwise. */
  function AdaptiveThresholds(minMotionArea: int, brightness: real): Thresholds {
    if brightness < DarkBrightness then Thresholds(ScaleDark(minMotionArea), 120)
    else Thresholds(minMotionArea, 150)
  }

  /** The dark profile never asks for a smaller area than the normal one. */
  lemma DarkNotSmaller(m: int, dark: real, normal: real)
    requires m >= 0 && dark < DarkBrightness <= normal
    ensures AdaptiveThresholds(m, dark).minMotionArea >= AdaptiveThresholds(m, normal).minMotionArea
    ensures AdaptiveThresholds(m, dark).binaryThreshold < AdaptiveThresholds(m, normal).binaryThreshold
  {
  }

  /** A video whose leading frames cannot be read gets brightness 80 and the normal profile. */
  lemma FallbackIsNormal(m: int)
    ensures Brightness([]) == FallbackBrightness
    ensures AdaptiveThresholds(m, Brightness([])) == Thresholds(m, 150)
  {
  }

  /** `cap.get(CAP_PROP_FPS) or 30`. */
  function FrameRate(reported: real): (fps: real)
    requires reported >= 0.0
    ensures fps > 0.0
    ensures reported > 0.0 ==> fps == reported
    ensures reported == 0.0 ==> fps == DefaultFps
  {
    if reported == 0.0 then DefaultFps else reported
  }

  // ---------------------------------------------------------------------------
  // The segment state machine

  /** Frame `idx` (1-based) is analysed when `idx % sample_every == 0`. */
  predicate Sampled(every: int, idx: nat) {
    every != 0 && idx % every == 0
  }

  function Max(a: real, b: real): real {
    if a >= b then a else b
  }

  /** A new `current_segment` opened by the active frame `idx`. */
  function Open(p: Params, idx: nat, area: real): OpenSegment
    requires p.fps > 0.0
  {
    OpenSegment(idx, idx as real / p.fps, area, [idx], 0)
  }

  /** The open segment after another active frame: peak area, grace counter reset, one more preview while fewer than five. */
  function Extend(s: OpenSegment, idx: nat, area: real): OpenSegment {
    var previews := if |s.previewFrames| < MaxPreviewFrames then s.previewFrames + [idx] else s.previewFrames;
    s.(maxArea := Max(s.maxArea, area), graceCounter := 0, previewFrames := previews)
  }

  /** One sampled or skipped frame: the body of the `while True` loop for frame `idx`. */
  function Step(p: Params, st: State, idx: nat, area: real): State
    requires p.fps > 0.0
  {
    if !Sampled(p.sampleEvery, idx) then st
    else if area >= p.minArea as real then
      match st.current
      case None => st.(current := Some(Open(p, idx, area)))
      case Some(s) => st.(current := Some(Extend(s, idx, area)))
    else
      match st.current
      case None => st
      case Some(s) =>
        var s' := s.(graceCounter := s.graceCounter + 1);
        if s'.graceCounter >= p.endGraceFrames then State(None, st.closed + [Closing(s', idx)])
        else st.(current := Some(s'))
  }

  /** The state after reading frames 1..n. */
  function Sweep(p: Params, areas: seq<real>, n: nat): State
    requires p.fps > 0.0 && n <= |areas|
  {
    if n == 0 then State(None, []) else Step(p, Sweep(p, areas, n - 1), n, areas[n - 1])
  }

  /** Every segment handed to `_finalize_segment`: those closed by the grace rule, then the one open at end of stream. */
  function Closings(p: Params, areas: seq<real>): seq<Closing>
    requires p.fps > 0.0
  {
    var st := Sweep(p, areas, |areas|);
    if st.current.Some? then st.closed + [Closing(st.current.value, |areas|)] else st.closed
  }


  // ---------------------------------------------------------------------------
  // What the state machine guarantees

  /** Frame `i` (1-based) is sampled and its area reaches the threshold. */
  predicate ActiveAt(p: Params, areas: seq<real>, i: nat)
    requires 1 <= i <= |areas|
  {
    Sampled(p.sampleEvery, i) && areas[i - 1] >= p.minArea as real
  }

  /** How many sampled frames up to frame n came after the last active one (all of them below the threshold). */
  function QuietRun(p: Params, areas: seq<real>, n: nat): nat
    requires n <= |areas|
  {
    if n == 0 then 0
    else if !Sampled(p.sampleEvery, n) then QuietRun(p, areas, n - 1)
    else if areas[n - 1] >= p.minArea as real then 0
    else QuietRun(p, areas, n - 1) + 1
  }

  predicate IncreasingFrames(fs: seq<nat>) {
    forall i, j :: 0 <= i < j < |fs| ==> fs[i] < fs[j]
  }

  /**
    What a segment covering frames start..last has recorded: it starts on an
    active frame at that frame's time, its previews are at most five active
    frames in order beginning with the start frame, and its peak area is the
    largest area of its active frames.
   */
  ghost predicate SegmentOk(p: Params, areas: seq<real>, s: OpenSegment, last: nat)
    requires last <= |areas| && p.fps > 0.0
  {
    && 1 <= s.startFrame <= last
    && ActiveAt(p, areas, s.startFrame)
    && s.startTime == s.startFrame as real / p.fps
    && 1 <= |s.previewFrames| <= MaxPreviewFrames
    && s.previewFrames[0] == s.startFrame
    && IncreasingFrames(s.previewFrames)
    && (forall k :: 0 <= k < |s.previewFrames| ==> 1 <= s.previewFrames[k] <= last && ActiveAt(p, areas, s.previewFrames[k]))
    && (forall j :: s.startFrame <= j <= last && ActiveAt(p, areas, j) ==> areas[j - 1] <= s.maxArea)
    && (exists j :: s.startFrame <= j <= last && ActiveAt(p, areas, j) && areas[j - 1] == s.maxArea)
  }

  /** The open segment after frames 1..n: its grace counter is the current quiet run, below the grace limit. */
  ghost predicate OpenOk(p: Params, areas: seq<real>, n: nat, s: OpenSegment)
    requires n <= |areas| && p.fps > 0.0
  {
    && SegmentOk(p, areas, s, n)
    && s.graceCounter == QuietRun(p, areas, n)
    && (s.graceCounter == 0 || s.graceCounter < p.endGraceFrames)
  }

  ghost predicate ClosingOk(p: Params, areas: seq<real>, c: Closing)
    requires p.fps > 0.0
  {
    c.endFrame <= |areas| && SegmentOk(p, areas, c.seg, c.endFrame)
  }

  /** Each closing ends before any later one starts. */
  predicate Ordered(cs: seq<Closing>) {
    forall i, j :: 0 <= i < j < |cs| ==> cs[i].endFrame < cs[j].seg.startFrame
  }

  ghost predicate SweepOk(p: Params, areas: seq<real>, n: nat, st: State)
    requires n <= |areas| && p.fps > 0.0
  {
    && (forall k :: 0 <= k < |st.closed| ==>
          st.closed[k].endFrame <= n && ClosingOk(p, areas, st.closed[k]) && st.closed[k].seg.startFrame < st.closed[k].endFrame)
    && Ordered(st.closed)
    && (st.current.Some? ==>
          && OpenOk(p, areas, n, st.current.value)
          && forall k :: 0 <= k < |st.closed| ==> st.closed[k].endFrame < st.current.value.startFrame)
  }

  lemma OpenSegmentOk(p: Params, areas: seq<real>, n: nat)
    requires p.fps > 0.0 && 1 <= n <= |areas| && ActiveAt(p, areas, n)
    ensures SegmentOk(p, areas, Open(p, n, areas[n - 1]), n)
  {
    var s := Open(p, n, areas[n - 1]);
    assert ActiveAt(p, areas, n) && areas[n - 1] == s.maxArea;
  }

  lemma ExtendQuiet(p: Params, areas: seq<real>, s: OpenSegment, n: nat, g: nat)
    requires p.fps > 0.0 && 1 <= n <= |areas| && !ActiveAt(p, areas, n)
    requires SegmentOk(p, areas, s, n - 1)
    ensures SegmentOk(p, areas, s.(graceCounter := g), n)
  {
    var w :| s.startFrame <= w <= n - 1 && ActiveAt(p, areas, w) && areas[w - 1] == s.maxArea;
    var s' := s.(graceCounter := g);
    assert s'.startFrame <= w <= n && ActiveAt(p, areas, w) && areas[w - 1] == s'.maxArea;
  }

  lemma ExtendActive(p: Params, areas: seq<real>, s: OpenSegment, n: nat)
    requires p.fps > 0.0 && 1 <= n <= |areas| && ActiveAt(p, areas, n)
    requires SegmentOk(p, areas, s, n - 1)
    ensures SegmentOk(p, areas, Extend(s, n, areas[n - 1]), n)
  {
    var s' := Extend(s, n, areas[n - 1]);
    var w :| s.startFrame <= w <= n - 1 && ActiveAt(p, areas, w) && areas[w - 1] == s.maxArea;
    if areas[n - 1] > s.maxArea {
      assert s'.startFrame <= n <= n && ActiveAt(p, areas, n) && areas[n - 1] == s'.maxArea;
    } else {
      assert s'.startFrame <= w <= n && ActiveAt(p, areas, w) && areas[w - 1] == s'.maxArea;
    }
    var pf := s'.previewFrames;
    assert forall k :: 0 <= k < |s.previewFrames| ==> s.previewFrames[k] < n;
    assert IncreasingFrames(pf);
  }

  /** The loop invariant of `analyze_video`, stated on the state after frames 1..n. */
  lemma {:induction false} SweepInvariant(p: Params, areas: seq<real>, n: nat)
    requires p.fps > 0.0 && n <= |areas|
    ensures SweepOk(p, areas, n, Sweep(p, areas, n))
  {
    if n > 0 {
      SweepInvariant(p, areas, n - 1);
      StepOk(p, areas, n, Sweep(p, areas, n - 1), Sweep(p, areas, n));
    }
  }

  /** One frame of the loop keeps the invariant. */
  lemma StepOk(p: Params, areas: seq<real>, n: nat, st: State, st': State)
    requires p.fps > 0.0 && 1 <= n <= |areas| && SweepOk(p, areas, n - 1, st)
    requires st' == Step(p, st, n, areas[n - 1])
    ensures SweepOk(p, areas, n, st')
  {
    var area := areas[n - 1];
    if !Sampled(p.sampleEvery, n) {
      if st.current.Some? {
        var s := st.current.value;
        ExtendQuiet(p, areas, s, n, s.graceCounter);
        assert s.(graceCounter := s.graceCounter) == s;
        KeepOpenOk(p, areas, n, st, s, st');
      } else {
        IdleOk(p, areas, n, st, st');
      }
    } else if area >= p.minArea as real {
      if st.current.None? {
        OpenSegmentOk(p, areas, n);
        KeepOpenOk(p, areas, n, st, Open(p, n, area), st');
      } else {
        ExtendActive(p, areas, st.current.value, n);
        KeepOpenOk(p, areas, n, st, Extend(st.current.value, n, area), st');
      }
    } else if st.current.Some? {
      var s := st.current.value;
      var s' := s.(graceCounter := s.graceCounter + 1);
      ExtendQuiet(p, areas, s, n, s.graceCounter + 1);
      if s'.graceCounter >= p.endGraceFrames {
        CloseOk(p, areas, n, st, s', st');
      } else {
        KeepOpenOk(p, areas, n, st, s', st');
      }
    } else {
      IdleOk(p, areas, n, st, st');
    }
  }

  /** With no segment open, a frame that opens none keeps the invariant. */
  lemma IdleOk(p: Params, areas: seq<real>, n: nat, st: State, st': State)
    requires p.fps > 0.0 && 1 <= n <= |areas| && SweepOk(p, areas, n - 1, st) && st.current.None? && st' == st
    ensures SweepOk(p, areas, n, st')
  {
  }

  /** A segment that stays open (or opens) at frame n, with the quiet run as its grace counter, keeps the invariant. */
  lemma KeepOpenOk(p: Params, areas: seq<real>, n: nat, st: State, s: OpenSegment, st': State)
    requires p.fps > 0.0 && 1 <= n <= |areas| && SweepOk(p, areas, n - 1, st)
    requires SegmentOk(p, areas, s, n)
    requires s.graceCounter == QuietRun(p, areas, n) && (s.graceCounter == 0 || s.graceCounter < p.endGraceFrames)
    requires (st.current.Some? && s.startFrame == st.current.value.startFrame) || s.startFrame == n
    requires st' == State(Some(s), st.closed)
    ensures SweepOk(p, areas, n, st')
  {
  }

  /** Closing the open segment at frame n appends a well-formed closing after all earlier ones. */
  lemma CloseOk(p: Params, areas: seq<real>, n: nat, st: State, s: OpenSegment, st': State)
    requires p.fps > 0.0 && 1 <= n <= |areas| && SweepOk(p, areas, n - 1, st)
    requires st.current.Some? && s.startFrame == st.current.value.startFrame
    requires SegmentOk(p, areas, s, n)
    requires st' == State(None, st.closed + [Closing(s, n)])
    ensures SweepOk(p, areas, n, st')
  {
    var closed := st.closed + [Closing(s, n)];
    forall i, j | 0 <= i < j < |closed| ensures closed[i].endFrame < closed[j].seg.startFrame {
      if j < |closed| - 1 {
        assert closed[i] == st.closed[i] && closed[j] == st.closed[j];
      }
    }
  }

  /** Every segment handed to `_finalize_segment` is well formed, and they are in time order without overlap. */
  lemma ClosingsWellFormed(p: Params, areas: seq<real>)
    requires p.fps > 0.0
    ensures Ordered(Closings(p, areas))
    ensures forall k :: 0 <= k < |Closings(p, areas)| ==>
              ClosingOk(p, areas, Closings(p, areas)[k]) && Closings(p, areas)[k].seg.startFrame <= Closings(p, areas)[k].endFrame
  {
    SweepInvariant(p, areas, |areas|);
  }

  /** An open segment stays open through a frame unless that frame is sampled, below the threshold and ends a quiet run of `end_grace_frames`. */
  lemma GraceClose(p: Params, areas: seq<real>, n: nat)
    requires p.fps > 0.0 && 1 <= n <= |areas|
    requires Sweep(p, areas, n - 1).current.Some?
    ensures Sweep(p, areas, n).current.None?
        <==> Sampled(p.sampleEvery, n) && areas[n - 1] < p.minArea as real && QuietRun(p, areas, n) >= p.endGraceFrames
    ensures Sweep(p, areas, n).current.None?
        <==> |Sweep(p, areas, n).closed| == |Sweep(p, areas, n - 1).closed| + 1
    ensures Sweep(p, areas, n).current.Some? ==> Sweep(p, areas, n).closed == Sweep(p, areas, n - 1).closed
  {
    SweepInvariant(p, areas, n - 1);
  }

  /** An active frame leaves a segment open with its grace counter at 0. */
  lemma ActiveResets(p: Params, areas: seq<real>, n: nat)
    requires p.fps > 0.0 && 1 <= n <= |areas| && ActiveAt(p, areas, n)
    ensures Sweep(p, areas, n).current.Some?
    ensures Sweep(p, areas, n).current.value.graceCounter == 0
    ensures Sweep(p, areas, n).closed == Sweep(p, areas, n - 1).closed
  {
  }

  /** How one frame changes the state: closings only grow, at most by the open segment ending at that frame. */
  lemma StepShape(p: Params, areas: seq<real>, n: nat)
    requires p.fps > 0.0 && 1 <= n <= |areas|
    ensures var st, st' := Sweep(p, areas, n - 1), Sweep(p, areas, n);
      && |st.closed| <= |st'.closed| <= |st.closed| + 1
      && st'.closed[..|st.closed|] == st.closed
      && (|st'.closed| > |st.closed| ==>
            && st.current.Some? && st'.current.None?
            && st'.closed[|st.closed|].seg.startFrame == st.current.value.startFrame
            && st'.closed[|st.closed|].endFrame == n)
      && (st.current.Some? && st'.current.Some? ==> st'.current.value.startFrame == st.current.value.startFrame)
      && (st.current.Some? ==> st'.current.Some? || |st'.closed| > |st.closed|)
  {
    var st := Sweep(p, areas, n - 1);
    assert st.closed + [] == st.closed;
  }

  /** Frame `i` lies inside one of the closings. */
  predicate Covered(cs: seq<Closing>, i: nat) {
    exists k :: 0 <= k < |cs| && cs[k].seg.startFrame <= i <= cs[k].endFrame
  }

  lemma {:induction false} ActiveCoveredUpTo(p: Params, areas: seq<real>, n: nat)
    requires p.fps > 0.0 && n <= |areas|
    ensures forall i :: 1 <= i <= n && ActiveAt(p, areas, i) ==>
      Covered(Sweep(p, areas, n).closed, i)
      || (Sweep(p, areas, n).current.Some? && Sweep(p, areas, n).current.value.startFrame <= i)
  {
    if n > 0 {
      ActiveCoveredUpTo(p, areas, n - 1);
      StepShape(p, areas, n);
      SweepInvariant(p, areas, n);
      var st, st' := Sweep(p, areas, n - 1), Sweep(p, areas, n);
      forall i | 1 <= i <= n && ActiveAt(p, areas, i)
        ensures Covered(st'.closed, i) || (st'.current.Some? && st'.current.value.startFrame <= i)
      {
        if i == n {
          ActiveResets(p, areas, n);
        } else if Covered(st.closed, i) {
          var k :| 0 <= k < |st.closed| && st.closed[k].seg.startFrame <= i <= st.closed[k].endFrame;
          assert st'.closed[k] == st.closed[k];
        } else if st'.current.None? {
          var k := |st.closed|;
          assert st'.closed[k].seg.startFrame <= i <= st'.closed[k].endFrame;
        }
      }
    }
  }

  /**
    No motion is dropped: every sampled frame at or above the threshold lies
    inside a segment handed to `_finalize_segment`, including one still open
    when the stream ends.
   */
  lemma ActiveFramesCovered(p: Params, areas: seq<real>)
    requires p.fps > 0.0
    ensures forall i :: 1 <= i <= |areas| && ActiveAt(p, areas, i) ==> Covered(Closings(p, areas), i)
  {
    ActiveCoveredUpTo(p, areas, |areas|);
    var st := Sweep(p, areas, |areas|);
    forall i | 1 <= i <= |areas| && ActiveAt(p, areas, i) ensures Covered(Closings(p, areas), i) {
      CoveredAtEnd(st.closed, st.current, Closings(p, areas), |areas|, i);
    }
  }

  /** A frame covered by a closed segment, or by the segment still open at the end, is covered by the closings. */
  lemma CoveredAtEnd(closed: seq<Closing>, current: Option<OpenSegment>, cs: seq<Closing>, last: nat, i: nat)
    requires cs == if current.Some? then closed + [Closing(current.value, last)] else closed
    requires Covered(closed, i) || (current.Some? && current.value.startFrame <= i <= last)
    ensures Covered(cs, i)
  {
    if Covered(closed, i) {
      var k :| 0 <= k < |closed| && closed[k].seg.startFrame <= i <= closed[k].endFrame;
      assert cs[k] == closed[k];
    } else {
      assert cs[|closed|].seg.startFrame <= i <= cs[|closed|].endFrame;
    }
  }

  // ---------------------------------------------------------------------------
  // Worked examples

  /** Motion on frames 3-5 and 12-13 of a 13-frame clip, every frame sampled. */
  const ExampleAreas: seq<real> := [0.0, 0.0, 1000.0, 1000.0, 1000.0, 0.0, 0.0, 0.0, 0.0, 0.0, 0.0, 1000.0, 1000.0]

  lemma IdleStep(p: Params, areas: seq<real>, n: nat, closed: seq<Closing>)
    requires p.fps > 0.0 && 1 <= n <= |areas| && Sweep(p, areas, n - 1) == State(None, closed)
    requires areas[n - 1] < p.minArea as real
    ensures Sweep(p, areas, n) == State(None, closed)
  {
  }

  lemma OpenStep(p: Params, areas: seq<real>, n: nat, closed: seq<Closing>)
    requires p.fps > 0.0 && 1 <= n <= |areas| && Sweep(p, areas, n - 1) == State(None, closed)
    requires ActiveAt(p, areas, n)
    ensures Sweep(p, areas, n) == State(Some(Open(p, n, areas[n - 1])), closed)
  {
  }

  lemma ExtendStep(p: Params, areas: seq<real>, n: nat, s: OpenSegment, closed: seq<Closing>)
    requires p.fps > 0.0 && 1 <= n <= |areas| && Sweep(p, areas, n - 1) == State(Some(s), closed)
    requires ActiveAt(p, areas, n)
    ensures Sweep(p, areas, n) == State(Some(Extend(s, n, areas[n - 1])), closed)
  {
  }

  lemma QuietStep(p: Params, areas: seq<real>, n: nat, s: OpenSegment, closed: seq<Closing>)
    requires p.fps > 0.0 && 1 <= n <= |areas| && Sweep(p, areas, n - 1) == State(Some(s), closed)
    requires Sampled(p.sampleEvery, n) && areas[n - 1] < p.minArea as real
    ensures s.graceCounter + 1 < p.endGraceFrames ==>
      Sweep(p, areas, n) == State(Some(s.(graceCounter := s.graceCounter + 1)), closed)
    ensures s.graceCounter + 1 >= p.endGraceFrames ==>
      Sweep(p, areas, n) == State(None, closed + [Closing(s.(graceCounter := s.graceCounter + 1), n)])
  {
  }

  /** The segment open on frames 3-5 of the example, with its grace counter at `g`. */
  function ExampleFirst(g: nat): OpenSegment {
    OpenSegment(3, 3.0, 1000.0, [3, 4, 5], g)
  }

  /** The example clip up to frame 5: two idle frames, then frames 3-5 open and extend a segment. */
  lemma ExampleUpToFive(p: Params, areas: seq<real>)
    requires p.sampleEvery == 1 && p.minArea == 800 && p.fps == 1.0 && areas == ExampleAreas
    ensures Sweep(p, areas, 5) == State(Some(ExampleFirst(0)), [])
  {
    IdleStep(p, areas, 1, []);
    IdleStep(p, areas, 2, []);
    OpenStep(p, areas, 3, []);
    var s3 := Open(p, 3, 1000.0);
    ExtendStep(p, areas, 4, s3, []);
    var s4 := Extend(s3, 4, 1000.0);
    assert s4.previewFrames == [3, 4];
    ExtendStep(p, areas, 5, s4, []);
    assert Extend(s4, 5, 1000.0) == ExampleFirst(0);
  }

  /** The example clip up to frame 10, for grace limits above 5: frames 3-5 open a segment and five quiet frames follow. */
  lemma ExampleUpToTen(p: Params, areas: seq<real>)
    requires p.sampleEvery == 1 && p.minArea == 800 && p.fps == 1.0 && p.endGraceFrames > 5 && areas == ExampleAreas
    ensures Sweep(p, areas, 10) == State(Some(ExampleFirst(5)), [])
  {
    ExampleUpToFive(p, areas);
    QuietStep(p, areas, 6, ExampleFirst(0), []);
    QuietStep(p, areas, 7, ExampleFirst(1), []);
    QuietStep(p, areas, 8, ExampleFirst(2), []);
    QuietStep(p, areas, 9, ExampleFirst(3), []);
    QuietStep(p, areas, 10, ExampleFirst(4), []);
  }

  /**
    Six quiet frames after motion close the segment on the sixth: with
    `end_grace_frames` 6 the gap of frames 6-11 splits the motion in two,
    the first segment ending at frame 11.
   */
  lemma GraceSplitsOnExactGap(p: Params, areas: seq<real>)
    requires p == Params(1, 800, 6, 0.5, 1.0) && areas == ExampleAreas
    ensures var cs := Closings(p, areas);
      |cs| == 2 && cs[0].seg.startFrame == 3 && cs[0].endFrame == 11
      && cs[1].seg.startFrame == 12 && cs[1].endFrame == 13
  {
    ExampleUpToTen(p, areas);
    QuietStep(p, areas, 11, ExampleFirst(5), []);
    var closed := [Closing(ExampleFirst(6), 11)];
    OpenStep(p, areas, 12, closed);
    ExtendStep(p, areas, 13, Open(p, 12, 1000.0), closed);
    assert |areas| == 13;
  }

  /** With `end_grace_frames` 7 the same gap is bridged and one segment runs from frame 3 to the end. */
  lemma GraceBridgesShorterGap(p: Params, areas: seq<real>)
    requires p == Params(1, 800, 7, 0.5, 1.0) && areas == ExampleAreas
    ensures var cs := Closings(p, areas);
      |cs| == 1 && cs[0].seg.startFrame == 3 && cs[0].endFrame == 13 && cs[0].seg.maxArea == 1000.0
  {
    ExampleUpToTen(p, areas);
    QuietStep(p, areas, 11, ExampleFirst(5), []);
    ExtendStep(p, areas, 12, ExampleFirst(6), []);
    ExtendStep(p, areas, 13, Extend(ExampleFirst(6), 12, 1000.0), []);
    assert |areas| == 13;
  }

  /**
    The dark profile raises the area threshold: a single frame whose area is
    exactly the configured minimum (2 or more) is motion under the normal
    profile and is ignored under the dark one.
   */
  lemma DarkProfileIgnoresThresholdArea(m: int, grace: int, minDuration: real, fps: real)
    requires m >= 2 && fps > 0.0
    ensures |Closings(Params(1, AdaptiveThresholds(m, DarkBrightness).minMotionArea, grace, minDuration, fps), [m as real])| == 1
    ensures Closings(Params(1, AdaptiveThresholds(m, DarkBrightness - 1.0).minMotionArea, grace, minDuration, fps), [m as real]) == []
  {
    var xs := [m as real];
    var normal := Params(1, AdaptiveThresholds(m, DarkBrightness).minMotionArea, grace, minDuration, fps);
    var dark := Params(1, AdaptiveThresholds(m, DarkBrightness - 1.0).minMotionArea, grace, minDuration, fps);
    assert normal.minArea == m;
    assert dark.minArea == ScaleDark(m) > m;
    assert Sampled(1, 1);
    assert Sweep(normal, xs, 1) == State(Some(Open(normal, 1, m as real)), []);
    assert Sweep(dark, xs, 1) == State(None, []);
  }

  // ---------------------------------------------------------------------------
  // Finalising a segment

  /** The preview frames that can be read back, in order (the `if ret` filter in `_finalize_segment`). */
  function ReadablePreviews(readable: nat -> bool, frames: seq<nat>): seq<nat> {
    if frames == [] then []
    else
      var init := ReadablePreviews(readable, frames[..|frames| - 1]);
      if readable(frames[|frames| - 1]) then init + [frames[|frames| - 1]] else init
  }

  /** `preview_frames[:5]`. */
  function FirstPreviews(frames: seq<nat>): (r: seq<nat>)
    ensures |r| <= MaxPreviewFrames
    ensures |r| == if |frames| <= MaxPreviewFrames then |frames| else MaxPreviewFrames
    ensures r == frames[..|r|]
  {
    if |frames| <= MaxPreviewFrames then frames else frames[..MaxPreviewFrames]
  }

  // ---------------------------------------------------------------------------
  // Object labels (`_detect_objects` after the YOLO call)

  /** The class names of the boxes whose confidence exceeds 0.5, in YOLO's order. */
  function ConfidentLabels(boxes: seq<Detection>): seq<string> {
    if boxes == [] then []
    else (if boxes[0].confidence > MinLabelConfidence then [boxes[0].name] else []) + ConfidentLabels(boxes[1..])
  }

  /** Insert `x` into an increasing list unless it is already there. */
  function Insert(x: string, xs: seq<string>): seq<string> {
    if xs == [] then [x]
    else if x == xs[0] then xs
    else if Less(x, xs[0]) then [x] + xs
    else [xs[0]] + Insert(x, xs[1..])
  }

  /** `sorted(set(xs))`. */
  function SortedSet(xs: seq<string>): seq<string> {
    if xs == [] then [] else Insert(xs[0], SortedSet(xs[1..]))
  }

  /** The label string `_detect_objects` returns for the boxes YOLO found. */
  function DetectObjects(boxes: seq<Detection>): string {
    var objects := ConfidentLabels(boxes);
    if objects == [] then "" else Join(SortedSet(objects), ", ")
  }

  predicate StrictlyIncreasing(xs: seq<string>) {
    forall i, j :: 0 <= i < j < |xs| ==> Less(xs[i], xs[j])
  }

  lemma {:induction false} ConfidentLabelsMembers(boxes: seq<Detection>, y: string)
    ensures y in ConfidentLabels(boxes) <==> exists b :: b in boxes && b.name == y && b.confidence > MinLabelConfidence
  {
    if boxes != [] {
      ConfidentLabelsMembers(boxes[1..], y);
      assert forall b :: b in boxes <==> b == boxes[0] || b in boxes[1..];
    }
  }

  lemma {:induction false} InsertSorted(x: string, xs: seq<string>)
    requires StrictlyIncreasing(xs)
    ensures StrictlyIncreasing(Insert(x, xs))
    ensures forall y :: y in Insert(x, xs) <==> y == x || y in xs
  {
    if xs == [] {
    } else if x == xs[0] {
    } else if Less(x, xs[0]) {
      var r := [x] + xs;
      forall i, j | 0 <= i < j < |r| ensures Less(r[i], r[j]) {
        if i == 0 && j > 1 {
          LessTransitive(x, xs[0], xs[j - 1]);
        }
      }
    } else {
      LessTotal(x, xs[0]);
      var tail := xs[1..];
      InsertSorted(x, tail);
      var ins := Insert(x, tail);
      var r := [xs[0]] + ins;
      forall i, j | 0 <= i < j < |r| ensures Less(r[i], r[j]) {
        if i == 0 {
          assert r[j] in ins;
          assert r[j] == x || r[j] in tail;
        }
      }
    }
  }

  /** `sorted(set(xs))` is strictly increasing and holds exactly the elements of `xs`. */
  lemma {:induction false} SortedSetSpec(xs: seq<string>)
    ensures StrictlyIncreasing(SortedSet(xs))
    ensures forall y :: y in SortedSet(xs) <==> y in xs
  {
    if xs != [] {
      SortedSetSpec(xs[1..]);
      InsertSorted(xs[0], SortedSet(xs[1..]));
      assert forall y :: y in xs <==> y == xs[0] || y in xs[1..];
    }
  }

  lemma TailMembers(a: seq<string>, y: string)
    requires StrictlyIncreasing(a) && a != []
    ensures y in a[1..] <==> y in a && y != a[0]
  {
    if y in a[1..] {
      var k :| 1 <= k < |a| && a[k] == y;
      LessIrreflexive(y);
    }
  }

  lemma FirstMember(b: seq<string>)
    ensures b == [] || b[0] in b
  {
  }

  /** A strictly increasing list is determined by its elements: `sorted(set(xs))` is unique. */
  lemma {:induction false} IncreasingUnique(a: seq<string>, b: seq<string>)
    requires StrictlyIncreasing(a) && StrictlyIncreasing(b)
    requires forall y :: y in a <==> y in b
    ensures a == b
  {
    if a == [] {
      FirstMember(b);
    } else {
      assert a[0] in b;
      var k :| 0 <= k < |b| && b[k] == a[0];
      assert b[0] in a;
      var m :| 0 <= m < |a| && a[m] == b[0];
      if k != 0 && m != 0 {
        LessAsymmetric(b[0], a[0]);
        assert false;
      }
      forall y ensures y in a[1..] <==> y in b[1..] {
        TailMembers(a, y);
        TailMembers(b, y);
      }
      IncreasingUnique(a[1..], b[1..]);
      assert a == [a[0]] + a[1..];
      assert b == [b[0]] + b[1..];
    }
  }

  /** A YOLO class name the dashboard can read back: non-empty, comma-free, no `trim` whitespace at either end. */
  predicate CleanLabel(name: string) {
    Trimmed(name) && ',' !in name
  }

  function TrimAll(fields: seq<string>): seq<string> {
    if fields == [] then [] else [Trim(fields[0])] + TrimAll(fields[1..])
  }

  function DropEmpty(fields: seq<string>): seq<string> {
    if fields == [] then [] else (if fields[0] == "" then [] else [fields[0]]) + DropEmpty(fields[1..])
  }

  /** How the dashboard reads a stored label string back: split on ',', trim, drop empty fields. Every label it yields is clean. */
  function ParseLabels(s: string): (labels: seq<string>)
    ensures forall k :: 0 <= k < |labels| ==> CleanLabel(labels[k])
  {
    SplitFieldsFree(s, ',');
    TrimAllClean(Split(s, ','));
    DropEmptyClean(TrimAll(Split(s, ',')));
    DropEmpty(TrimAll(Split(s, ',')))
  }

  /** Trimming comma-free fields leaves each one empty or a clean label. */
  lemma {:induction false} TrimAllClean(fields: seq<string>)
    requires forall k :: 0 <= k < |fields| ==> ',' !in fields[k]
    ensures forall k :: 0 <= k < |TrimAll(fields)| ==> TrimAll(fields)[k] == "" || CleanLabel(TrimAll(fields)[k])
  {
    TrimAllSpec(fields);
    forall k | 0 <= k < |fields|
      ensures TrimAll(fields)[k] == "" || CleanLabel(TrimAll(fields)[k])
    {
      TrimChars(fields[k]);
    }
  }

  /** Dropping the empty fields of fields that are empty or clean leaves only clean labels. */
  lemma {:induction false} DropEmptyClean(fields: seq<string>)
    requires forall k :: 0 <= k < |fields| ==> fields[k] == "" || CleanLabel(fields[k])
    ensures forall k :: 0 <= k < |DropEmpty(fields)| ==> CleanLabel(DropEmpty(fields)[k])
  {
    if fields != [] {
      DropEmptyClean(fields[1..]);
    }
  }

  /** The labels YOLO reports for a frame, or "" when YOLO is off or raises. */
  function LabelsAt(cfg: Config, cap: Capture, frame: nat): string {
    if !cfg.enableYolo then ""
    else
      match cap.yolo
      case None => ""
      case Some(detect) =>
        match detect(frame)
        case None => ""
        case Some(boxes) => DetectObjects(boxes)
  }

  /** `_finalize_segment`: None for a segment shorter than the minimum, else the segment with its saved previews. */
  function Finalize(p: Params, cfg: Config, cap: Capture, s: OpenSegment, endTime: real): Option<MotionSegment> {
    if endTime - s.startTime < p.minDuration then None
    else
      var saved := ReadablePreviews(cap.readable, FirstPreviews(s.previewFrames));
      var objects := if |saved| > 0 then LabelsAt(cfg, cap, saved[0]) else "";
      Some(MotionSegment(s.startTime, endTime, s.maxArea, objects, saved))
  }

  function FinalizeClosing(p: Params, cfg: Config, cap: Capture, c: Closing): Option<MotionSegment>
    requires p.fps > 0.0
  {
    Finalize(p, cfg, cap, c.seg, c.endFrame as real / p.fps)
  }

  /** The segments kept from a list of closings, in order. */
  function FinalizeAll(p: Params, cfg: Config, cap: Capture, cs: seq<Closing>): seq<MotionSegment>
    requires p.fps > 0.0
  {
    if cs == [] then []
    else
      var init := FinalizeAll(p, cfg, cap, cs[..|cs| - 1]);
      match FinalizeClosing(p, cfg, cap, cs[|cs| - 1])
      case Some(seg) => init + [seg]
      case None => init
  }

  /** The segments `analyze_video` returns for a capture that opened. */
  function Segments(p: Params, cfg: Config, cap: Capture): seq<MotionSegment>
    requires p.fps > 0.0
  {
    FinalizeAll(p, cfg, cap, Closings(p, cap.areas))
  }

  // ---------------------------------------------------------------------------
  // What the returned segments satisfy

  lemma DivLess(a: real, b: real, f: real)
    requires a < b && f > 0.0
    ensures a / f < b / f
  {
    assert b / f - a / f == (b - a) / f;
  }

  lemma DivAtMost(a: real, b: real, f: real)
    requires a <= b && f > 0.0
    ensures a / f <= b / f
  {
    if a < b {
      DivLess(a, b, f);
    }
  }

  /** The saved previews are exactly the readable recorded frames, in their order. */
  lemma {:induction false} ReadablePreviewsSpec(readable: nat -> bool, frames: seq<nat>)
    ensures forall x :: x in ReadablePreviews(readable, frames) <==> x in frames && readable(x)
    ensures IncreasingFrames(frames) ==> IncreasingFrames(ReadablePreviews(readable, frames))
    ensures |ReadablePreviews(readable, frames)| <= |frames|
  {
    if frames != [] {
      var init := frames[..|frames| - 1];
      var last := frames[|frames| - 1];
      ReadablePreviewsSpec(readable, init);
      assert frames == init + [last];
      assert forall x :: x in frames <==> x in init || x == last;
      if IncreasingFrames(frames) {
        assert IncreasingFrames(init);
        if readable(last) {
          forall y | y in init ensures y < last {
            var m :| 0 <= m < |init| && init[m] == y;
            assert frames[m] == y;
          }
          AppendIncreasing(ReadablePreviews(readable, init), last);
        }
      }
    }
  }

  /** Appending a frame later than every recorded one keeps the frames increasing. */
  lemma AppendIncreasing(fs: seq<nat>, x: nat)
    requires IncreasingFrames(fs) && forall y :: y in fs ==> y < x
    ensures IncreasingFrames(fs + [x])
  {
    var r := fs + [x];
    forall i, j | 0 <= i < j < |r| ensures r[i] < r[j] {
      if j == |r| - 1 {
        assert r[i] in fs;
      } else {
        assert r[i] == fs[i] && r[j] == fs[j];
      }
    }
  }

  /** A segment as the schema stores it: long enough, above the area threshold, with at most five readable active previews inside it. */
  ghost predicate SegmentGood(p: Params, cap: Capture, seg: MotionSegment)
    requires p.fps > 0.0
  {
    && seg.endTime - seg.startTime >= p.minDuration
    && seg.maxMotionArea >= p.minArea as real
    && PeakOfSpan(p, cap, seg)
    && |seg.previewFrames| <= MaxPreviewFrames
    && IncreasingFrames(seg.previewFrames)
    && forall k :: 0 <= k < |seg.previewFrames| ==>
         && 1 <= seg.previewFrames[k] <= |cap.areas|
         && ActiveAt(p, cap.areas, seg.previewFrames[k])
         && cap.readable(seg.previewFrames[k])
         && seg.startTime <= seg.previewFrames[k] as real / p.fps <= seg.endTime
  }

  /** The recorded peak is the largest area of the active frames whose time lies in the segment's span, and one of them has it. */
  ghost predicate PeakOfSpan(p: Params, cap: Capture, seg: MotionSegment)
    requires p.fps > 0.0
  {
    && (forall j :: 1 <= j <= |cap.areas| && ActiveAt(p, cap.areas, j) && seg.startTime <= j as real / p.fps <= seg.endTime
          ==> cap.areas[j - 1] <= seg.maxMotionArea)
    && (exists j :: 1 <= j <= |cap.areas| && ActiveAt(p, cap.areas, j) && seg.startTime <= j as real / p.fps <= seg.endTime
          && cap.areas[j - 1] == seg.maxMotionArea)
  }

  lemma DivAtMostInverse(a: real, b: real, f: real)
    requires f > 0.0 && a / f <= b / f
    ensures a <= b
  {
    if a > b {
      DivLess(b, a, f);
    }
  }

  /** A closing's recorded peak is the peak of the frames in its time span. */
  lemma ClosingPeak(p: Params, cap: Capture, c: Closing, seg: MotionSegment)
    requires p.fps > 0.0 && ClosingOk(p, cap.areas, c)
    requires seg.startTime == c.seg.startFrame as real / p.fps && seg.endTime == c.endFrame as real / p.fps
    requires seg.maxMotionArea == c.seg.maxArea
    ensures PeakOfSpan(p, cap, seg)
  {
    var s := c.seg;
    forall j | 1 <= j <= |cap.areas| && ActiveAt(p, cap.areas, j) && seg.startTime <= j as real / p.fps <= seg.endTime
      ensures cap.areas[j - 1] <= seg.maxMotionArea
    {
      DivAtMostInverse(s.startFrame as real, j as real, p.fps);
      DivAtMostInverse(j as real, c.endFrame as real, p.fps);
    }
    var w :| s.startFrame <= w <= c.endFrame && ActiveAt(p, cap.areas, w) && cap.areas[w - 1] == s.maxArea;
    DivAtMost(s.startFrame as real, w as real, p.fps);
    DivAtMost(w as real, c.endFrame as real, p.fps);
  }

  /** Segments in time order, each ending before the next starts. */
  predicate TimeOrdered(segs: seq<MotionSegment>) {
    forall i, j :: 0 <= i < j < |segs| ==> segs[i].endTime < segs[j].startTime
  }

  lemma FinalizeClosingGood(p: Params, cfg: Config, cap: Capture, c: Closing)
    requires p.fps > 0.0 && ClosingOk(p, cap.areas, c) && c.seg.startFrame <= c.endFrame
    ensures FinalizeClosing(p, cfg, cap, c).None? <==> c.endFrame as real / p.fps - c.seg.startTime < p.minDuration
    ensures FinalizeClosing(p, cfg, cap, c).Some? ==>
              && SegmentGood(p, cap, FinalizeClosing(p, cfg, cap, c).value)
              && FinalizeClosing(p, cfg, cap, c).value.startTime == c.seg.startFrame as real / p.fps
              && FinalizeClosing(p, cfg, cap, c).value.endTime == c.endFrame as real / p.fps
              && FinalizeClosing(p, cfg, cap, c).value.maxMotionArea == c.seg.maxArea
              && FinalizeClosing(p, cfg, cap, c).value.previewFrames == ReadablePreviews(cap.readable, FirstPreviews(c.seg.previewFrames))
              && FinalizeClosing(p, cfg, cap, c).value.detectedObjects ==
                   (if |FinalizeClosing(p, cfg, cap, c).value.previewFrames| > 0
                    then LabelsAt(cfg, cap, FinalizeClosing(p, cfg, cap, c).value.previewFrames[0]) else "")
  {
    var s := c.seg;
    var first := FirstPreviews(s.previewFrames);
    assert forall x :: x in first ==> x in s.previewFrames;
    assert IncreasingFrames(first);
    ReadablePreviewsSpec(cap.readable, first);
    var r := FinalizeClosing(p, cfg, cap, c);
    if r.Some? {
      var seg := r.value;
      ClosingPeak(p, cap, c, seg);
      forall k | 0 <= k < |seg.previewFrames|
        ensures seg.startTime <= seg.previewFrames[k] as real / p.fps <= seg.endTime
      {
        var x := seg.previewFrames[k];
        assert x in seg.previewFrames;
        var m :| 0 <= m < |s.previewFrames| && s.previewFrames[m] == x;
        assert s.startFrame <= x <= c.endFrame;
        DivAtMost(s.startFrame as real, x as real, p.fps);
        DivAtMost(x as real, c.endFrame as real, p.fps);
      }
      forall k | 0 <= k < |seg.previewFrames|
        ensures 1 <= seg.previewFrames[k] <= |cap.areas| && ActiveAt(p, cap.areas, seg.previewFrames[k])
      {
        assert seg.previewFrames[k] in seg.previewFrames;
      }
    }
  }

  /**
    Finalising well-formed ordered closings keeps every segment good and the
    segments in time order, all ending no later than the last closing.
   */
  lemma {:induction false} FinalizeAllGood(p: Params, cfg: Config, cap: Capture, cs: seq<Closing>)
    requires p.fps > 0.0 && Ordered(cs)
    requires forall k :: 0 <= k < |cs| ==> ClosingOk(p, cap.areas, cs[k]) && cs[k].seg.startFrame <= cs[k].endFrame
    ensures forall i :: 0 <= i < |FinalizeAll(p, cfg, cap, cs)| ==> SegmentGood(p, cap, FinalizeAll(p, cfg, cap, cs)[i])
    ensures TimeOrdered(FinalizeAll(p, cfg, cap, cs))
    ensures cs != [] ==> forall i :: 0 <= i < |FinalizeAll(p, cfg, cap, cs)| ==>
              FinalizeAll(p, cfg, cap, cs)[i].endTime <= cs[|cs| - 1].endFrame as real / p.fps
  {
    if cs != [] {
      var pre := cs[..|cs| - 1];
      var c := cs[|cs| - 1];
      ClosingsInit(p, cap.areas, cs);
      var init := FinalizeAll(p, cfg, cap, pre);
      assert (forall i :: 0 <= i < |init| ==> SegmentGood(p, cap, init[i])) && TimeOrdered(init)
        && (pre != [] ==> forall i :: 0 <= i < |init| ==> init[i].endTime <= pre[|pre| - 1].endFrame as real / p.fps)
      by {
        FinalizeAllGood(p, cfg, cap, pre);
      }
      if pre != [] {
        EndsBefore(p.fps, init, pre[|pre| - 1].endFrame, c.seg.startFrame, c.endFrame);
      }
      FinalizeStepGood(p, cfg, cap, init, c, FinalizeAll(p, cfg, cap, cs));
    }
  }

  /** Finalising one more closing, after segments that all end before it starts, keeps the list good and in time order. */
  lemma FinalizeStepGood(p: Params, cfg: Config, cap: Capture, init: seq<MotionSegment>, c: Closing, all: seq<MotionSegment>)
    requires p.fps > 0.0 && ClosingOk(p, cap.areas, c) && c.seg.startFrame <= c.endFrame
    requires (forall i :: 0 <= i < |init| ==> SegmentGood(p, cap, init[i])) && TimeOrdered(init)
    requires forall i :: 0 <= i < |init| ==>
      init[i].endTime < c.seg.startFrame as real / p.fps && init[i].endTime <= c.endFrame as real / p.fps
    requires all == if FinalizeClosing(p, cfg, cap, c).Some? then init + [FinalizeClosing(p, cfg, cap, c).value] else init
    ensures forall i :: 0 <= i < |all| ==> SegmentGood(p, cap, all[i])
    ensures TimeOrdered(all)
    ensures forall i :: 0 <= i < |all| ==> all[i].endTime <= c.endFrame as real / p.fps
  {
    FinalizeClosingGood(p, cfg, cap, c);
    if FinalizeClosing(p, cfg, cap, c).Some? {
      AppendGood(p, cap, init, FinalizeClosing(p, cfg, cap, c).value, c.endFrame as real / p.fps);
    }
  }

  /** Dropping the last closing keeps the rest well formed and ordered; the one before the last ends before the last starts. */
  lemma ClosingsInit(p: Params, areas: seq<real>, cs: seq<Closing>)
    requires p.fps > 0.0 && cs != [] && Ordered(cs)
    requires forall k :: 0 <= k < |cs| ==> ClosingOk(p, areas, cs[k]) && cs[k].seg.startFrame <= cs[k].endFrame
    ensures var pre := cs[..|cs| - 1];
      && Ordered(pre)
      && (forall k :: 0 <= k < |pre| ==> ClosingOk(p, areas, pre[k]) && pre[k].seg.startFrame <= pre[k].endFrame)
    ensures |cs| >= 2 ==> cs[|cs| - 2].endFrame < cs[|cs| - 1].seg.startFrame
  {
    var pre := cs[..|cs| - 1];
    assert forall k :: 0 <= k < |pre| ==> pre[k] == cs[k];
  }

  /** Segments ending by frame `last` end before a later closing's start frame and by its end frame. */
  lemma EndsBefore(fps: real, init: seq<MotionSegment>, last: nat, start: nat, end: nat)
    requires fps > 0.0 && last < start <= end
    requires forall i :: 0 <= i < |init| ==> init[i].endTime <= last as real / fps
    ensures forall i :: 0 <= i < |init| ==> init[i].endTime < start as real / fps && init[i].endTime <= end as real / fps
  {
    DivLess(last as real, start as real, fps);
    DivAtMost(start as real, end as real, fps);
  }

  /** A good segment starting after every earlier one ends extends a good, time-ordered list. */
  lemma AppendGood(p: Params, cap: Capture, init: seq<MotionSegment>, seg: MotionSegment, bound: real)
    requires p.fps > 0.0
    requires forall i :: 0 <= i < |init| ==> SegmentGood(p, cap, init[i])
    requires forall i :: 0 <= i < |init| ==> init[i].endTime < seg.startTime && init[i].endTime <= bound
    requires TimeOrdered(init) && SegmentGood(p, cap, seg) && seg.endTime <= bound
    ensures forall i :: 0 <= i < |init + [seg]| ==> SegmentGood(p, cap, (init + [seg])[i])
    ensures forall i :: 0 <= i < |init + [seg]| ==> (init + [seg])[i].endTime <= bound
    ensures TimeOrdered(init + [seg])
  {
    var all := init + [seg];
    forall i | 0 <= i < |all|
      ensures SegmentGood(p, cap, all[i]) && all[i].endTime <= bound
    {
      if i < |init| {
        assert all[i] == init[i];
      }
    }
    forall i, j | 0 <= i < j < |all|
      ensures all[i].endTime < all[j].startTime
    {
      if j == |all| - 1 {
        assert all[i] == init[i];
      } else {
        assert all[i] == init[i] && all[j] == init[j];
      }
    }
  }

  /**
    Every segment `analyze_video` returns lasts at least `min_segment_duration`,
    peaks at or above the motion threshold, keeps at most five readable
    active preview frames that lie inside it, and the segments come in time
    order without overlap.
   */
  lemma SegmentsSpec(p: Params, cfg: Config, cap: Capture)
    requires p.fps > 0.0
    ensures forall i :: 0 <= i < |Segments(p, cfg, cap)| ==> SegmentGood(p, cap, Segments(p, cfg, cap)[i])
    ensures TimeOrdered(Segments(p, cfg, cap))
    ensures forall i :: 0 <= i < |Segments(p, cfg, cap)| ==>
              exists k :: 0 <= k < |Closings(p, cap.areas)| && FinalizeClosing(p, cfg, cap, Closings(p, cap.areas)[k]) == Some(Segments(p, cfg, cap)[i])
  {
    ClosingsWellFormed(p, cap.areas);
    FinalizeAllGood(p, cfg, cap, Closings(p, cap.areas));
    FinalizeAllFrom(p, cfg, cap, Closings(p, cap.areas));
  }

  /** Every finalised segment is what `_finalize_segment` made of one of the closings. */
  lemma {:induction false} FinalizeAllFrom(p: Params, cfg: Config, cap: Capture, cs: seq<Closing>)
    requires p.fps > 0.0
    ensures forall i :: 0 <= i < |FinalizeAll(p, cfg, cap, cs)| ==>
              exists k :: 0 <= k < |cs| && FinalizeClosing(p, cfg, cap, cs[k]) == Some(FinalizeAll(p, cfg, cap, cs)[i])
  {
    if cs != [] {
      var pre := cs[..|cs| - 1];
      FinalizeAllFrom(p, cfg, cap, pre);
      var init := FinalizeAll(p, cfg, cap, pre);
      var all := FinalizeAll(p, cfg, cap, cs);
      var last := FinalizeClosing(p, cfg, cap, cs[|cs| - 1]);
      assert all == if last.Some? then init + [last.value] else init;
      forall i | 0 <= i < |all|
        ensures exists k :: 0 <= k < |cs| && FinalizeClosing(p, cfg, cap, cs[k]) == Some(all[i])
      {
        if i < |init| {
          var k :| 0 <= k < |pre| && FinalizeClosing(p, cfg, cap, pre[k]) == Some(init[i]);
          assert cs[k] == pre[k];
        } else {
          assert FinalizeClosing(p, cfg, cap, cs[|cs| - 1]) == Some(all[i]);
        }
      }
    } else {
      assert FinalizeAll(p, cfg, cap, cs) == [];
    }
  }

  /** The state-machine parameters `analyze_video` derives from the configuration and the capture. */
  function ParamsFor(cfg: Config, cap: Capture): (p: Params)
    requires cap.reportedFps >= 0.0
    ensures p.fps > 0.0
  {
    var th := AdaptiveThresholds(cfg.minMotionArea, Brightness(cap.lumas));
    Params(cfg.sampleEveryNFrames, th.minMotionArea, cfg.endGraceFrames, cfg.minSegmentDuration, FrameRate(cap.reportedFps))
  }

  /** What `analyze_video` returns or raises. */
  function Analysis(cfg: Config, path: string, cap: Capture): Result<seq<MotionSegment>, string>
    requires cap.reportedFps >= 0.0
  {
    if !cap.isOpened then Failure(CannotOpenVideo + path)
    else if cfg.sampleEveryNFrames == 0 && |cap.areas| > 0 then Failure(ModuloByZero)
    else Success(Segments(ParamsFor(cfg, cap), cfg, cap))
  }

  // ---------------------------------------------------------------------------
  // Reading the label string back

  lemma {:induction false} TrimAllSpec(fields: seq<string>)
    ensures |TrimAll(fields)| == |fields|
    ensures forall k :: 0 <= k < |fields| ==> TrimAll(fields)[k] == Trim(fields[k])
  {
    if fields != [] {
      TrimAllSpec(fields[1..]);
    }
  }

  lemma {:induction false} DropEmptyKeeps(fields: seq<string>)
    requires forall k :: 0 <= k < |fields| ==> fields[k] != ""
    ensures DropEmpty(fields) == fields
  {
    if fields != [] {
      DropEmptyKeeps(fields[1..]);
    }
  }

  /** Trimming the fields of a ", "-joined list, the first bare and the rest after one space, gives the list back. */
  lemma {:induction false} TrimFields(parts: seq<string>, fields: seq<string>)
    requires |fields| == |parts| && forall k :: 0 <= k < |parts| ==> Trimmed(parts[k])
    requires |parts| > 0 ==> fields[0] == parts[0]
    requires forall k :: 1 <= k < |parts| ==> fields[k] == " " + parts[k]
    ensures TrimAll(fields) == parts
  {
    TrimAllSpec(fields);
    forall k | 0 <= k < |parts|
      ensures TrimAll(fields)[k] == parts[k]
    {
      TrimField(parts[k], fields[k]);
    }
  }

  lemma TrimField(part: string, field: string)
    requires Trimmed(part) && (field == part || field == " " + part)
    ensures Trim(field) == part
  {
    TrimAfterSpace(part);
  }

  /** A string whose ','-fields are clean labels, the first bare and the rest after one space, parses back into those labels. */
  lemma ParseFieldsBack(s: string, parts: seq<string>)
    requires forall k :: 0 <= k < |parts| ==> CleanLabel(parts[k])
    requires |Split(s, ',')| == |parts| && |parts| > 0 && Split(s, ',')[0] == parts[0]
    requires forall k :: 1 <= k < |parts| ==> Split(s, ',')[k] == " " + parts[k]
    ensures ParseLabels(s) == parts
  {
    TrimFields(parts, Split(s, ','));
    assert DropEmpty(parts) == parts by {
      assert forall k :: 0 <= k < |parts| ==> parts[k] != "";
      DropEmptyKeeps(parts);
    }
  }

  /** A class name ending in a tab is not clean: the dashboard reads it back without the tab. */
  lemma TabEndedName()
    ensures !CleanLabel("car\t")
    ensures ParseLabels("car\t") == ["car"]
  {
    assert Split("car\t", ',') == ["car\t"];
    assert TrimStart("car\t") == "car\t";
    assert TrimEnd("car\t") == TrimEnd("car") == "car";
    assert TrimAll(["car\t"]) == ["car"];
  }

  /** Clean labels joined with ", " split, trim and filter back into the same list. */
  lemma ParseJoined(parts: seq<string>)
    requires parts != [] && forall k :: 0 <= k < |parts| ==> CleanLabel(parts[k])
    ensures ParseLabels(Join(parts, ", ")) == parts
  {
    assert ", " == [','] + " ";
    ParseJoinedWith(parts, ", ");
  }

  /** The same, for the separator ',' followed by one space given as a variable. */
  lemma ParseJoinedWith(parts: seq<string>, sep: string)
    requires parts != [] && forall k :: 0 <= k < |parts| ==> CleanLabel(parts[k])
    requires sep == [','] + " "
    ensures ParseLabels(Join(parts, sep)) == parts
  {
    assert NoneContain(parts, ',');
    SplitJoin(parts, ',', " ");
    ParseFieldsBack(Join(parts, sep), parts);
  }

  /**
    The stored label string reads back as exactly `sorted(set(labels))`,
    provided YOLO's confident class names are clean (no commas, no `trim`
    whitespace at either end): splitting on ',' and trimming recovers every label.
   */
  lemma LabelsRoundTrip(boxes: seq<Detection>)
    requires forall b :: b in boxes && b.confidence > MinLabelConfidence ==> CleanLabel(b.name)
    ensures ParseLabels(DetectObjects(boxes)) == SortedSet(ConfidentLabels(boxes))
    ensures forall y :: y in ParseLabels(DetectObjects(boxes)) <==>
              exists b :: b in boxes && b.name == y && b.confidence > MinLabelConfidence
  {
    var objects := ConfidentLabels(boxes);
    var parts := SortedSet(objects);
    assert forall y :: y in parts <==> y in objects by {
      SortedSetSpec(objects);
    }
    assert forall y :: y in objects <==> exists b :: b in boxes && b.name == y && b.confidence > MinLabelConfidence by {
      forall y
        ensures y in objects <==> exists b :: b in boxes && b.name == y && b.confidence > MinLabelConfidence
      {
        ConfidentLabelsMembers(boxes, y);
      }
    }
    forall k | 0 <= k < |parts|
      ensures CleanLabel(parts[k])
    {
      assert parts[k] in objects;
    }
    JoinedReadBack(parts, DetectObjects(boxes));
  }

  /** Clean labels joined with ", ", none at all included, read back as themselves. */
  lemma JoinedReadBack(parts: seq<string>, s: string)
    requires forall k :: 0 <= k < |parts| ==> CleanLabel(parts[k])
    requires s == Join(parts, ", ")
    ensures ParseLabels(s) == parts
  {
    if parts == [] {
      assert Split("", ',') == [""];
    } else {
      ParseJoined(parts);
    }
  }

  // ---------------------------------------------------------------------------
  // format_time

  /** `str(n)` for any integer. */
  function IntStr(n: int): string {
    if n < 0 then "-" + NatStr(-n) else NatStr(n)
  }

  const SecondsPerDay: int := 86400

  /**
    `str(timedelta(seconds=n))`: "H:MM:SS", preceded by "D day, " or
    "D days, " when the day count (rounded down) is not zero.
   */
  function TimedeltaStr(n: int): string {
    var days := n / SecondsPerDay;
    var rest := n % SecondsPerDay;
    if days == 0 then ClockStr(rest) else IntStr(days) + " " + DayWord(days) + " " + ClockStr(rest)
  }

  /** The "H:MM:SS" part of a `timedelta` string, for the seconds within one day. */
  function ClockStr(rest: int): string
    requires 0 <= rest < SecondsPerDay
  {
    NatStr(rest / 3600) + ":" + Pad2(rest % 3600 / 60) + ":" + Pad2(rest % 60)
  }

  function DayWord(days: int): string {
    if days == 1 || days == -1 then "day," else "days,"
  }

  /** `format_time`: the time label of a segment boundary. */
  function FormatTime(seconds: real): string {
    TimedeltaStr(Truncate(seconds))
  }

  function ParseNat(s: string): Option<nat> {
    if |s| > 0 && AllDigits(s) then Some(DigitsValue(s)) else None
  }

  function ParseInt(s: string): Option<int> {
    if |s| > 0 && s[0] == '-' then
      match ParseNat(s[1..])
      case Some(v) => Some(-(v as int))
      case None => None
    else ParseNat(s)
  }

  /** Reads "H:MM:SS" back into seconds. */
  function ParseClock(s: string): Option<int> {
    var f := Split(s, ':');
    if |f| != 3 then None
    else
      match (ParseNat(f[0]), ParseNat(f[1]), ParseNat(f[2]))
      case (Some(h), Some(m), Some(x)) => Some(h * 3600 + m * 60 + x)
      case _ => None
  }

  /** Reads a `timedelta` string back into seconds. */
  function ParseTimedelta(s: string): Option<int> {
    var f := Split(s, ' ');
    if |f| == 1 then ParseClock(f[0])
    else if |f| == 3 && (f[1] == "day," || f[1] == "days,") then
      match (ParseInt(f[0]), ParseClock(f[2]))
      case (Some(d), Some(c)) => Some(d * SecondsPerDay + c)
      case _ => None
    else None
  }

  /** A string splitting on ':' into three numerals reads as hours, minutes and seconds. */
  lemma ParseClockFields(s: string, a: string, b: string, c: string, h: nat, m: nat, x: nat, total: int)
    requires Split(s, ':') == [a, b, c]
    requires ParseNat(a) == Some(h) && ParseNat(b) == Some(m) && ParseNat(c) == Some(x)
    requires total == h * 3600 + m * 60 + x
    ensures ParseClock(s) == Some(total)
  {
  }

  lemma ClockFieldsRoundTrip(h: nat, m: nat, x: nat, total: int)
    requires m < 60 && x < 60 && total == h * 3600 + m * 60 + x
    ensures ' ' !in NatStr(h) + ":" + Pad2(m) + ":" + Pad2(x)
    ensures ParseClock(NatStr(h) + ":" + Pad2(m) + ":" + Pad2(x)) == Some(total)
  {
    var a, b, c := NatStr(h), Pad2(m), Pad2(x);
    var clock := a + ":" + b + ":" + c;
    assert ' ' !in clock by {
      DigitsHaveNo(a, ' ');
      DigitsHaveNo(b, ' ');
      DigitsHaveNo(c, ' ');
    }
    assert Split(clock, ':') == [a, b, c] by {
      DigitsHaveNo(a, ':');
      DigitsHaveNo(b, ':');
      DigitsHaveNo(c, ':');
      assert clock == a + [':'] + b + [':'] + c;
      SplitThree(a, b, c, ':');
    }
    assert ParseNat(a) == Some(h) by { NatStrValue(h); }
    assert ParseNat(b) == Some(m) by { Pad2Value(m); }
    assert ParseNat(c) == Some(x) by { Pad2Value(x); }
    ParseClockFields(clock, a, b, c, h, m, x, total);
  }

  lemma IntStrRoundTrip(d: int)
    ensures ParseInt(IntStr(d)) == Some(d)
    ensures ' ' !in IntStr(d)
  {
    NatStrValue(if d < 0 then -d else d);
    if d < 0 {
      DigitsHaveNo(NatStr(-d), ' ');
      assert IntStr(d)[1..] == NatStr(-d);
    } else {
      DigitsHaveNo(NatStr(d), ' ');
    }
  }

  /** The clock of a time within one day has no space and reads back as that time. */
  lemma ClockRoundTrip(rest: int)
    requires 0 <= rest < SecondsPerDay
    ensures ' ' !in ClockStr(rest)
    ensures ParseClock(ClockStr(rest)) == Some(rest)
  {
    ClockDecompose(rest);
    ClockFieldsRoundTrip(rest / 3600, rest % 3600 / 60, rest % 60, rest);
  }

  lemma ClockDecompose(rest: int)
    requires 0 <= rest < SecondsPerDay
    ensures rest == rest / 3600 * 3600 + rest % 3600 / 60 * 60 + rest % 60 && rest % 3600 / 60 < 60
  {
  }

  lemma ClockOnlyRoundTrip(clock: string, c: int)
    requires ' ' !in clock && ParseClock(clock) == Some(c)
    ensures ParseTimedelta(clock) == Some(c)
  {
    assert Split(clock, ' ') == [clock];
  }

  /** A string splitting on ' ' into a day count, "day,"/"days," and a clock reads as that many days plus the clock. */
  lemma ParseDaysFields(s: string, a: string, w: string, clock: string, d: int, c: int, total: int)
    requires Split(s, ' ') == [a, w, clock] && (w == "day," || w == "days,")
    requires ParseInt(a) == Some(d) && ParseClock(clock) == Some(c) && total == d * SecondsPerDay + c
    ensures ParseTimedelta(s) == Some(total)
  {
  }

  lemma DaysRoundTrip(d: int, clock: string, c: int, total: int)
    requires d != 0 && ' ' !in clock && ParseClock(clock) == Some(c)
    requires total == d * SecondsPerDay + c
    ensures ParseTimedelta(IntStr(d) + " " + DayWord(d) + " " + clock) == Some(total)
  {
    var a, word := IntStr(d), DayWord(d);
    var s := a + " " + word + " " + clock;
    IntStrRoundTrip(d);
    assert Split(s, ' ') == [a, word, clock] by {
      assert s == a + [' '] + word + [' '] + clock;
      SplitThree(a, word, clock, ' ');
    }
    ParseDaysFields(s, a, word, clock, d, c, total);
  }

  /** `str(timedelta(seconds=n))` reads back as n. */
  lemma TimedeltaRoundTrip(n: int)
    ensures ParseTimedelta(TimedeltaStr(n)) == Some(n)
  {
    var days := n / SecondsPerDay;
    var rest := n % SecondsPerDay;
    var clock := ClockStr(rest);
    ClockRoundTrip(rest);
    assert n == days * SecondsPerDay + rest;
    if days == 0 {
      assert TimedeltaStr(n) == clock;
      ClockOnlyRoundTrip(clock, rest);
    } else {
      assert TimedeltaStr(n) == IntStr(days) + " " + DayWord(days) + " " + clock;
      DaysRoundTrip(days, clock, rest, n);
    }
  }

  /** The time label reads back as the whole number of seconds `int(seconds)`. */
  lemma FormatTimeRoundTrip(seconds: real)
    ensures ParseTimedelta(FormatTime(seconds)) == Some(Truncate(seconds))
  {
    TimedeltaRoundTrip(Truncate(seconds));
  }

  // ---------------------------------------------------------------------------
  // The imperative detector

  /** `_finalize_segment`: the duration filter, then the loop that saves readable previews. */
  method FinalizeSegment(p: Params, cfg: Config, cap: Capture, s: OpenSegment, endTime: real)
    returns (r: Option<MotionSegment>)
    ensures r == Finalize(p, cfg, cap, s, endTime)
  {
    if endTime - s.startTime < p.minDuration {
      return None;
    }
    var frames := FirstPreviews(s.previewFrames);
    var saved: seq<nat> := [];
    for i := 0 to |frames|
      invariant saved == ReadablePreviews(cap.readable, frames[..i])
    {
      assert frames[..i + 1][..i] == frames[..i];
      if cap.readable(frames[i]) {
        saved := saved + [frames[i]];
      }
    }
    assert frames[..|frames|] == frames;
    var objects := "";
    if |saved| > 0 {
      objects := LabelsAt(cfg, cap, saved[0]);
    }
    r := Some(MotionSegment(s.startTime, endTime, s.maxArea, objects, saved));
  }

  /** `analyze_video`: the frame loop with its grace-period close rule and the end-of-stream flush. */
  method AnalyzeVideo(cfg: Config, path: string, cap: Capture) returns (r: Result<seq<MotionSegment>, string>)
    requires cap.reportedFps >= 0.0
    ensures r == Analysis(cfg, path, cap)
  {
    if !cap.isOpened {
      return Failure(CannotOpenVideo + path);
    }
    var fps := FrameRate(cap.reportedFps);
    var thresholds := AdaptiveThresholds(cfg.minMotionArea, Brightness(cap.lumas));
    var p := Params(cfg.sampleEveryNFrames, thresholds.minMotionArea, cfg.endGraceFrames, cfg.minSegmentDuration, fps);
    assert p == ParamsFor(cfg, cap);
    var segments: seq<MotionSegment> := [];
    var current: Option<OpenSegment> := None;
    ghost var closed: seq<Closing> := [];
    var frameIdx: nat := 0;
    while frameIdx < |cap.areas|
      invariant frameIdx <= |cap.areas|
      invariant cfg.sampleEveryNFrames == 0 ==> frameIdx == 0
      invariant State(current, closed) == Sweep(p, cap.areas, frameIdx)
      invariant segments == FinalizeAll(p, cfg, cap, closed)
    {
      frameIdx := frameIdx + 1;
      if cfg.sampleEveryNFrames == 0 {
        return Failure(ModuloByZero);
      }
      if frameIdx % cfg.sampleEveryNFrames != 0 {
        continue;
      }
      var maxArea := cap.areas[frameIdx - 1];
      var hasMotion := maxArea >= thresholds.minMotionArea as real;
      var currentTime := frameIdx as real / fps;
      if hasMotion {
        if current.None? {
          current := Some(OpenSegment(frameIdx, currentTime, maxArea, [frameIdx], 0));
        } else {
          var s := current.value;
          var previews := s.previewFrames;
          if |previews| < MaxPreviewFrames {
            previews := previews + [frameIdx];
          }
          current := Some(s.(maxArea := Max(s.maxArea, maxArea), graceCounter := 0, previewFrames := previews));
          assert current == Some(Extend(s, frameIdx, maxArea));
        }
      } else if current.Some? {
        var s := current.value.(graceCounter := current.value.graceCounter + 1);
        if s.graceCounter >= cfg.endGraceFrames {
          var segment := FinalizeSegment(p, cfg, cap, s, currentTime);
          ghost var before := closed;
          closed := closed + [Closing(s, frameIdx)];
          assert closed[..|closed| - 1] == before;
          if segment.Some? {
            segments := segments + [segment.value];
          }
          current := None;
        } else {
          current := Some(s);
        }
      }
    }
    if current.Some? {
      var segment := FinalizeSegment(p, cfg, cap, current.value, frameIdx as real / fps);
      ghost var before := closed;
      closed := closed + [Closing(current.value, frameIdx)];
      assert closed[..|closed| - 1] == before;
      if segment.Some? {
        segments := segments + [segment.value];
      }
    }
    r := Success(segments);
  }
}
