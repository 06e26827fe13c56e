/**
 MP4VideoSlicer: an iterator over the frames of a recorded video that steps
 one frame at a time, a fixed number of frames at a time, or by a number of
 frames its caller supplies before each call, and releases its capture
 source when the next index would fall past the reported frame count.
 */
module VideoSlicing {
  import opened SlicerModel

  /** A run preceded by the indices `labels` and the source calls `calls` of the calls already made. */
  function After(labels: seq<nat>, calls: seq<SourceOp>, r: Run): Run
  {
    Run(labels + r.labels, r.stopped, r.last, calls + r.calls)
  }

  /** No call in `calls` is a seek. */
  predicate SeekFree(calls: seq<SourceOp>)
  {
    forall i :: 0 <= i < |calls| ==> !calls[i].SeekOp?
  }

  /** Appending in two steps is appending once. */
  lemma AppendTwice<T>(a: seq<T>, b: seq<T>, c: seq<T>)
    ensures (a + b) + c == a + (b + c)
  {
  }

  /** One more call of a run with the step left as it is, moved into the prefix. */
  lemma DriveOneMore(whole: Run, labels: seq<nat>, calls: seq<SourceOp>, cur: State, n: nat)
    requires n >= 1 && whole == After(labels, calls, Drive(cur, n))
    ensures var t := Advance(cur);
      if t.step.Stopped? then whole == Run(labels, true, t.next, calls + t.calls)
      else whole == After(labels + [t.next.frameCount], calls + t.calls, Drive(t.next, n - 1))
  {
    var t := Advance(cur);
    var rest := Drive(t.next, n - 1);
    if t.step.Stopped? {
      assert labels + [] == labels;
    } else {
      AppendTwice(labels, [t.next.frameCount], rest.labels);
      AppendTwice(calls, t.calls, rest.calls);
    }
  }

  /** One more call of a run whose caller supplies the next step first, moved into the prefix. */
  lemma DriveStepsOneMore(whole: Run, labels: seq<nat>, calls: seq<SourceOp>, cur: State, steps: seq<nat>)
    requires |steps| >= 1 && whole == After(labels, calls, DriveSteps(cur, steps))
    ensures var t := Advance(cur.(pendingStep := steps[0]));
      if t.step.Stopped? then whole == Run(labels, true, t.next, calls + t.calls)
      else whole == After(labels + [t.next.frameCount], calls + t.calls, DriveSteps(t.next, steps[1..]))
  {
    var t := Advance(cur.(pendingStep := steps[0]));
    var rest := DriveSteps(t.next, steps[1..]);
    if t.step.Stopped? {
      assert labels + [] == labels;
    } else {
      AppendTwice(labels, [t.next.frameCount], rest.labels);
      AppendTwice(calls, t.calls, rest.calls);
    }
  }

  class MP4VideoSlicer {
    /** `frame_count`: the index of the last frame yielded. */
    var frameCount: nat
    /** `total_frames`: the frame count the video's metadata reports. */
    const totalFrames: nat
    /** Chosen once from `autoincrement` and `increment`. */
    const mode: Mode
    /** `next_step_seconds`, converted to frames; read only in external mode. */
    var pendingStep: nat
    /** `capture_source`, owned by the slicer alone. */
    var capture: Capture
    /** Every call the slicer has issued to its capture source, in order. */
    ghost var trace: seq<SourceOp>

    /** The slicer's state as a value. */
    function Abstract(): (s: State)
      reads this
    {
      State(frameCount, totalFrames, mode, pendingStep, capture)
    }

    /**
     The index is below the reported frame count or still 0, the source is
     released exactly when a release has been issued, and one-by-one mode
     never seeks.
     */
    ghost predicate Valid()
      reads this
    {
      && Inv(Abstract())
      && (capture.released <==> ReleaseOp in trace)
      && (mode.OneByOne? ==> SeekFree(trace))
    }

    /**
     Opens the source on `stream`; `totalFrames` is the count its metadata
     reports and `increment` the fixed step already converted to frames.
     */
    constructor (stream: seq<Frame>, totalFrames: nat, autoincrement: bool, increment: Option<nat>)
      ensures Valid()
      ensures Abstract() == Fresh(stream, totalFrames, ModeOf(autoincrement, increment))
      ensures trace == []
    {
      this.capture := Open(stream);
      this.totalFrames := totalFrames;
      this.pendingStep := 0;
      this.frameCount := 0;
      this.mode := ModeOf(autoincrement, increment);
      this.trace := [];
    }

    /** The caller's assignment to `next_step_seconds` (elapsed time, converted to frames). */
    method SetNextStep(frames: nat)
      requires Valid()
      modifies this`pendingStep
      ensures Valid()
      ensures Abstract() == old(Abstract()).(pendingStep := frames)
    {
      pendingStep := frames;
    }

    /** Releases the source; a second release leaves the slicer's state as it was. */
    method Cleanup()
      requires Valid()
      modifies this`capture, this`trace
      ensures Valid()
      ensures Abstract() == old(Abstract()).(capture := Release(old(capture)))
      ensures trace == old(trace) + [ReleaseOp]
      ensures old(capture.released) ==> Abstract() == old(Abstract())
    {
      capture := Release(capture);
      trace := trace + [ReleaseOp];
    }

    /**
     `__next__`: stops (releasing the source, keeping the index) when the
     target index reaches the reported frame count; otherwise reads, after a
     seek unless in one-by-one mode, commits the target as the new index and
     returns the read's pair unchanged.
     */
    method Next() returns (r: Step)
      requires Valid()
      modifies this`frameCount, this`capture, this`trace
      ensures Valid()
      ensures var t := Advance(old(Abstract()));
        && r == t.step
        && Abstract() == t.next
        && trace == old(trace) + t.calls
      ensures r.Stopped? <==> old(frameCount) + StepFrames(mode, pendingStep) >= totalFrames
      ensures r.Stopped? ==> frameCount == old(frameCount) && capture.released
      ensures r.Yielded? ==> old(frameCount) <= frameCount < totalFrames
    {
      var target := frameCount + StepFrames(mode, pendingStep);
      if target >= totalFrames {
        Cleanup();
        return Stopped;
      }
      var g: Grab;
      if mode.OneByOne? {
        g := Read(capture);
        trace := trace + [ReadOp];
      } else {
        capture := Seek(capture, target);
        trace := trace + [SeekOp(target)];
        g := Read(capture);
        trace := trace + [ReadOp];
      }
      capture := g.after;
      frameCount := target;
      r := Yielded(g.result.ok, g.result.frame);
    }

    /**
     The `for ret, frame in self` loop of the timelapse export, without the
     export: calls `Next` until it stops, at most `maxCalls` times, and
     returns the index reached after each yielded call.
     */
    method Collect(maxCalls: nat) returns (indices: seq<nat>, stopped: bool)
      requires Valid()
      modifies this`frameCount, this`capture, this`trace
      ensures Valid()
      ensures var run := Drive(old(Abstract()), maxCalls);
        && indices == run.labels
        && stopped == run.stopped
        && Abstract() == run.last
        && trace == old(trace) + run.calls
    {
      ghost var whole, startTrace := Drive(Abstract(), maxCalls), trace;
      ghost var issued: seq<SourceOp> := [];
      indices, stopped := [], false;
      var i := 0;
      while i < maxCalls
        invariant 0 <= i <= maxCalls
        invariant Valid()
        invariant trace == startTrace + issued
        invariant whole == After(indices, issued, Drive(Abstract(), maxCalls - i))
      {
        DriveOneMore(whole, indices, issued, Abstract(), maxCalls - i);
        ghost var t := Advance(Abstract());
        var r := Next();
        AppendTwice(startTrace, issued, t.calls);
        issued := issued + t.calls;
        if r.Stopped? {
          stopped := true;
          return;
        }
        indices := indices + [frameCount];
        i := i + 1;
      }
    }

    /**
     Repeated frame requests of the recorded-video input: before call `i`
     the caller sets the step to `steps[i]` (its elapsed time, converted to
     frames), then calls `Next`, until a call stops or the steps run out.
     */
    method CollectWithSteps(steps: seq<nat>) returns (indices: seq<nat>, stopped: bool)
      requires Valid()
      modifies this`frameCount, this`capture, this`trace, this`pendingStep
      ensures Valid()
      ensures var run := DriveSteps(old(Abstract()), steps);
        && indices == run.labels
        && stopped == run.stopped
        && Abstract() == run.last
        && trace == old(trace) + run.calls
    {
      ghost var whole, startTrace := DriveSteps(Abstract(), steps), trace;
      ghost var issued: seq<SourceOp> := [];
      indices, stopped := [], false;
      var i := 0;
      while i < |steps|
        invariant 0 <= i <= |steps|
        invariant Valid()
        invariant trace == startTrace + issued
        invariant whole == After(indices, issued, DriveSteps(Abstract(), steps[i..]))
      {
        assert steps[i..][0] == steps[i] && steps[i..][1..] == steps[i + 1..];
        DriveStepsOneMore(whole, indices, issued, Abstract(), steps[i..]);
        ghost var t := Advance(Abstract().(pendingStep := steps[i]));
        SetNextStep(steps[i]);
        var r := Next();
        AppendTwice(startTrace, issued, t.calls);
        issued := issued + t.calls;
        if r.Stopped? {
          stopped := true;
          return;
        }
        indices := indices + [frameCount];
        i := i + 1;
      }
    }
  }
}
