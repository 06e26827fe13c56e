/**
 The value-level model of the frame-stepping core of MP4VideoSlicer: the
 capture source it owns, the three stepping modes, and one call of
 `__next__` as a transition from one slicer state to the next.
 The class in video_slicer.dfy is proved against `Advance`; the lemmas in
 slicer_properties.dfy are stated over these functions.
 */
module SlicerModel {

  datatype Option<T> = None | Some(value: T)

  /** A decoded picture, or the empty frame (Python's `None`) that a failed read gives back. */
  datatype Frame = NoFrame | Image(pixels: seq<int>)

  /** The pair `(ret, frame)` that one read of the capture returns. */
  datatype ReadResult = ReadResult(ok: bool, frame: Frame)

  /**
   The capture source as the slicer sees it: what each frame index of the
   stream decodes to (`NoFrame` where the data is corrupt), the index the
   next sequential read comes from, and whether the source has been released.
   The stream length need not agree with the frame count the metadata reports.
   */
  datatype Capture = Capture(stream: seq<Frame>, position: nat, released: bool)

  /** The calls the slicer issues to its capture source. */
  datatype SourceOp = SeekOp(index: nat) | ReadOp | ReleaseOp

  /** A read's result together with the capture as the read leaves it. */
  datatype Grab = Grab(result: ReadResult, after: Capture)

  /** A capture that has just been opened on `stream`. */
  function Open(stream: seq<Frame>): (c: Capture)
    ensures c.stream == stream && !c.released && c.position == 0
  {
    Capture(stream, 0, false)
  }

  /**
   Reading decodes the frame at the cursor and moves the cursor past it.
   The flag is set exactly when a live source has a decodable frame there;
   a released source, or a cursor past the end of the stream, reads nothing
   and leaves the cursor where it is.
   */
  function Read(c: Capture): (g: Grab)
    ensures g.after.stream == c.stream && g.after.released == c.released
    ensures g.result.ok <==> !c.released && c.position < |c.stream| && c.stream[c.position].Image?
    ensures g.result.ok <==> g.result.frame.Image?
    ensures g.result.ok ==> g.result.frame == c.stream[c.position] && g.after.position == c.position + 1
    ensures g.after.position <= c.position + 1
  {
    if c.released || c.position >= |c.stream| then
      Grab(ReadResult(false, NoFrame), c)
    else
      var f := c.stream[c.position];
      Grab(ReadResult(f.Image?, f), c.(position := c.position + 1))
  }

  /** Positioning the source at a frame index; a released source ignores it. */
  function Seek(c: Capture, index: nat): (d: Capture)
    ensures d.stream == c.stream && d.released == c.released
    ensures !c.released ==> d.position == index
    ensures c.released ==> d == c
  {
    if c.released then c else c.(position := index)
  }

  /** Releasing the source; the stream and the cursor are kept as they were. */
  function Release(c: Capture): (d: Capture)
    ensures d.released
    ensures d.stream == c.stream && d.position == c.position
    ensures c.released ==> d == c
  {
    c.(released := true)
  }

  /**
   How the next frame index is chosen: one frame at a time (`autoincrement`
   without an `increment`), a fixed number of frames per step (`autoincrement`
   with an `increment`, converted to frames), or a number of frames the caller
   supplies before each call (`autoincrement` off).
   */
  datatype Mode = OneByOne | FixedStep(frames: nat) | External

  /** The mode the constructor's two flags select; `increment` is ignored when `autoincrement` is off. */
  function ModeOf(autoincrement: bool, increment: Option<nat>): (m: Mode)
    ensures m.OneByOne? <==> autoincrement && increment.None?
    ensures m.FixedStep? <==> autoincrement && increment.Some?
    ensures m.External? <==> !autoincrement
    ensures m.FixedStep? ==> m.frames == increment.value
  {
    if autoincrement then
      match increment
      case None => OneByOne
      case Some(k) => FixedStep(k)
    else
      External
  }

  /**
   The slicer's state: the index of the last frame yielded (`frame_count`),
   the frame count the metadata reports, the mode, the step in frames the
   caller last supplied (`next_step_seconds`, converted), and the owned source.
   */
  datatype State = State(frameCount: nat, totalFrames: nat, mode: Mode, pendingStep: nat, capture: Capture)

  /** A slicer just constructed on `stream`. */
  function Fresh(stream: seq<Frame>, totalFrames: nat, mode: Mode): (s: State)
    ensures s.frameCount == 0 && s.pendingStep == 0 && s.capture == Open(stream)
    ensures s.totalFrames == totalFrames && s.mode == mode
  {
    State(0, totalFrames, mode, 0, Open(stream))
  }

  /** The number of frames one call advances by in `mode`. */
  function StepFrames(mode: Mode, pendingStep: nat): (d: nat)
  {
    match mode
    case OneByOne => 1
    case FixedStep(k) => k
    case External => pendingStep
  }

  /** The frame index the next call aims at. */
  function Target(s: State): (t: nat)
  {
    s.frameCount + StepFrames(s.mode, s.pendingStep)
  }

  /** The index is below the reported frame count, or still 0 (as on a source reporting no frames). */
  predicate Inv(s: State)
  {
    s.frameCount == 0 || s.frameCount < s.totalFrames
  }

  /** What one call returns: `StopIteration`, or the read's `(ret, frame)`. */
  datatype Step = Stopped | Yielded(ok: bool, frame: Frame)

  /** One call: what it returns, the state it leaves, and the calls it issued to the source. */
  datatype Transition = Transition(step: Step, next: State, calls: seq<SourceOp>)

  /**
   One call of `__next__`. A target at or past the reported frame count
   releases the source and stops with the index unchanged; otherwise the
   source is read (after a seek to the target unless in one-by-one mode),
   the index becomes the target and the read's pair is returned as it is.
   */
  function Advance(s: State): (t: Transition)
    ensures t.next.totalFrames == s.totalFrames && t.next.mode == s.mode
    ensures t.next.pendingStep == s.pendingStep && t.next.capture.stream == s.capture.stream
    ensures t.step.Stopped? <==> Target(s) >= s.totalFrames
    ensures t.step.Stopped? ==>
      && t.next.frameCount == s.frameCount
      && t.next.capture == Release(s.capture)
      && t.calls == [ReleaseOp]
    ensures t.step.Yielded? ==>
      && t.next.frameCount == Target(s) < s.totalFrames
      && t.next.capture.released == s.capture.released
      && t.calls == if s.mode.OneByOne? then [ReadOp] else [SeekOp(Target(s)), ReadOp]
    ensures s.frameCount <= t.next.frameCount
    ensures Inv(s) ==> Inv(t.next)
  {
    var target := Target(s);
    if target >= s.totalFrames then
      Transition(Stopped, s.(capture := Release(s.capture)), [ReleaseOp])
    else if s.mode.OneByOne? then
      var g := Read(s.capture);
      Transition(Yielded(g.result.ok, g.result.frame), s.(frameCount := target, capture := g.after), [ReadOp])
    else
      var g := Read(Seek(s.capture, target));
      Transition(Yielded(g.result.ok, g.result.frame), s.(frameCount := target, capture := g.after), [SeekOp(target), ReadOp])
  }

  /**
   The outcome of driving a slicer: the index after each yielded call,
   whether a call stopped, the final state, and the calls issued to the source.
   */
  datatype Run = Run(labels: seq<nat>, stopped: bool, last: State, calls: seq<SourceOp>)

  /**
   At most `calls` successive calls with the caller's step left as it is,
   ending at the first `StopIteration` (the `for ret, frame in self` loop).
   */
  function Drive(s: State, calls: nat): (r: Run)
    ensures |r.labels| <= calls
    ensures r.stopped ==> |r.labels| < calls && r.last.capture.released
    ensures forall i :: 0 <= i < |r.labels| ==> s.frameCount <= r.labels[i] < s.totalFrames
    ensures s.frameCount <= r.last.frameCount
    decreases calls
  {
    if calls == 0 then
      Run([], false, s, [])
    else
      var t := Advance(s);
      if t.step.Stopped? then
        Run([], true, t.next, t.calls)
      else
        var rest := Drive(t.next, calls - 1);
        Run([t.next.frameCount] + rest.labels, rest.stopped, rest.last, t.calls + rest.calls)
  }

  /**
   Successive calls where the caller supplies `steps[i]` as the step before
   call `i` (the recorded-video input assigning `next_step_seconds` before
   each `next`), ending at the first `StopIteration`.
   */
  function DriveSteps(s: State, steps: seq<nat>): (r: Run)
    ensures |r.labels| <= |steps|
    ensures r.stopped ==> |r.labels| < |steps| && r.last.capture.released
    ensures forall i :: 0 <= i < |r.labels| ==> s.frameCount <= r.labels[i] < s.totalFrames
    ensures r.last.totalFrames == s.totalFrames && r.last.mode == s.mode
    decreases |steps|
  {
    if |steps| == 0 then
      Run([], false, s, [])
    else
      var t := Advance(s.(pendingStep := steps[0]));
      if t.step.Stopped? then
        Run([], true, t.next, t.calls)
      else
        var rest := DriveSteps(t.next, steps[1..]);
        Run([t.next.frameCount] + rest.labels, rest.stopped, rest.last, t.calls + rest.calls)
  }

  /** The indices `c + d, c + 2d, ..., c + n*d`. */
  function Multiples(c: nat, d: nat, n: nat): (m: seq<nat>)
    ensures |m| == n
    decreases n
  {
    if n == 0 then [] else [c + d] + Multiples(c + d, d, n - 1)
  }

  /** How many indices `c + j*d` with `j >= 1` lie below `total`. */
  function YieldCount(c: nat, total: nat, d: nat): (n: nat)
    requires d >= 1
  {
    if c < total then (total - 1 - c) / d else 0
  }
}
