/**
 Properties of the slicer model: what a single call reads and from where,
 what happens at and after the end of the sequence, and which indices a
 run of calls yields.
 */
module SlicerProperties {
  import opened SlicerModel

  /**
   Every call that does not stop returns the read's pair as it is: the flag
   is set exactly when the source is live and has a decodable frame at the
   index read (the cursor in one-by-one mode, the target otherwise), and the
   frame is that stream frame on success and the empty frame on failure.
   This covers a released source and an index at or past the end of the
   decoded stream too. A live source's cursor ends one past the index read
   when that index lies inside the stream, whether or not the frame there
   decodes, and at the index read otherwise.
   */
  lemma YieldPassesReadThrough(s: State)
    requires Target(s) < s.totalFrames
    ensures var t := Advance(s);
      var idx := if s.mode.OneByOne? then s.capture.position else Target(s);
      && t.step.Yielded?
      && (t.step.ok <==> !s.capture.released && idx < |s.capture.stream| && s.capture.stream[idx].Image?)
      && t.step.frame == (if t.step.ok then s.capture.stream[idx] else NoFrame)
      && (!s.capture.released ==> t.next.capture.position == if idx < |s.capture.stream| then idx + 1 else idx)
  {
  }

  /** In the fixed-step and external modes the source is positioned at the target, so a live source yields that frame. */
  lemma SeekModesReadTarget(s: State)
    requires !s.mode.OneByOne? && !s.capture.released
    requires Target(s) < s.totalFrames && Target(s) < |s.capture.stream|
    ensures var t := Advance(s);
      && t.calls == [SeekOp(Target(s)), ReadOp]
      && t.step == Yielded(s.capture.stream[Target(s)].Image?, s.capture.stream[Target(s)])
      && t.next.capture.position == Target(s) + 1
  {
  }

  /**
   In one-by-one mode no seek is issued: the frame comes from the source's
   own cursor, not from the new index. When the cursor starts level with the
   index, the frame returned is the one at the OLD index while the index
   moves one ahead, and the cursor stays level with the index.
   */
  lemma OneByOneReadsCursor(s: State)
    requires s.mode.OneByOne? && !s.capture.released
    requires Target(s) < s.totalFrames && s.capture.position < |s.capture.stream|
    ensures var t := Advance(s);
      && t.calls == [ReadOp]
      && t.step == Yielded(s.capture.stream[s.capture.position].Image?, s.capture.stream[s.capture.position])
      && t.next.frameCount == s.frameCount + 1
      && t.next.capture.position == s.capture.position + 1
      && (s.capture.position == s.frameCount ==> t.next.capture.position == t.next.frameCount)
  {
  }

  /** Once the source is released, a call that does not stop still issues its read, and the read reports failure. */
  lemma ReleasedSourceReadsNothing(s: State)
    requires s.capture.released && Target(s) < s.totalFrames
    ensures Advance(s).step == Yielded(false, NoFrame)
    ensures Advance(s).next.capture == s.capture
  {
  }

  /** In external mode with the initial step of zero the index stays put and the same frame is sought and read again. */
  lemma ExternalZeroStepRereads(s: State)
    requires s.mode.External? && s.pendingStep == 0 && s.frameCount < s.totalFrames
    ensures var t := Advance(s);
      && t.step.Yielded?
      && t.next.frameCount == s.frameCount
      && t.calls == [SeekOp(s.frameCount), ReadOp]
  {
  }

  /** With a step of at least one frame every yielded call strictly increases the index. */
  lemma StrictProgress(s: State)
    requires StepFrames(s.mode, s.pendingStep) >= 1
    ensures Advance(s).step.Yielded? ==> Advance(s).next.frameCount > s.frameCount
  {
  }

  /** Releasing twice is the same as releasing once. */
  lemma ReleaseIdempotent(c: Capture)
    ensures Release(Release(c)) == Release(c)
  {
  }

  /**
   As long as the caller's step is left as it is, stopping is final: the
   next call stops again and, the source being released already, changes
   nothing but issuing one more release.
   */
  lemma StopIsFinal(s: State)
    requires Advance(s).step.Stopped?
    ensures var u := Advance(s).next;
      Advance(u) == Transition(Stopped, u, [ReleaseOp])
  {
  }

  /**
   A step of zero frames (a fixed step of zero, or the caller's step left at
   its initial zero) never stops while the index is in range: every call
   yields the same index again.
   */
  lemma {:induction false} ZeroStepNeverStops(s: State, calls: nat)
    requires StepFrames(s.mode, s.pendingStep) == 0 && s.frameCount < s.totalFrames
    ensures var r := Drive(s, calls);
      && !r.stopped
      && |r.labels| == calls
      && (forall i :: 0 <= i < calls ==> r.labels[i] == s.frameCount)
    decreases calls
  {
    if calls > 0 {
      var t := Advance(s);
      assert t.step.Yielded? && t.next.frameCount == s.frameCount;
      ZeroStepNeverStops(t.next, calls - 1);
    }
  }

  /** A slicer built on a source reporting no frames stops on its first call, whatever the mode. */
  lemma EmptySourceStops(stream: seq<Frame>, mode: Mode)
    ensures Advance(Fresh(stream, 0, mode)).step == Stopped
    ensures Advance(Fresh(stream, 0, mode)).next.capture.released
  {
  }

  /** The `i`-th of the multiples is `c + (i+1)*d`. */
  lemma {:induction false} MultiplesAt(c: nat, d: nat, n: nat, i: nat)
    requires i < n
    ensures Multiples(c, d, n)[i] == c + (i + 1) * d
    decreases n
  {
    if i > 0 {
      MultiplesAt(c + d, d, n - 1, i - 1);
      assert c + d + i * d == c + (i + 1) * d;
    }
  }

  /** A positive multiple of `d` is at least `d`. */
  lemma {:induction false} MulAtLeast(k: nat, d: nat)
    requires k >= 1
    ensures k * d >= d
    decreases k
  {
    if k > 1 {
      MulAtLeast(k - 1, d);
      assert k * d == (k - 1) * d + d;
    }
  }

  /** Floor division is determined by quotient and remainder. */
  lemma DivUnique(x: nat, d: nat, q: int, r: int)
    requires d >= 1 && 0 <= r < d && x == q * d + r
    ensures x / d == q
  {
    var q0, r0 := x / d, x % d;
    assert x == q0 * d + r0;
    if q0 > q {
      MulAtLeast(q0 - q, d);
    } else if q > q0 {
      MulAtLeast(q - q0, d);
    }
  }

  /** Dividing by `d` after taking `d` away gives one less. */
  lemma DivLessOne(x: nat, d: nat)
    requires d >= 1 && x >= d
    ensures (x - d) / d == x / d - 1
  {
    var q, r := x / d, x % d;
    assert x == q * d + r;
    assert x - d == (q - 1) * d + r;
    DivUnique(x - d, d, q - 1, r);
  }

  /** Taking one step of `d` off the distance to `total` removes exactly one yield. */
  lemma YieldCountStep(c: nat, total: nat, d: nat)
    requires d >= 1
    ensures c + d >= total ==> YieldCount(c, total, d) == 0
    ensures c + d < total ==> YieldCount(c, total, d) >= 1 && YieldCount(c + d, total, d) == YieldCount(c, total, d) - 1
  {
    if c + d < total {
      DivLessOne(total - 1 - c, d);
      DivUnique(d, d, 1, 0);
      DivMonotone(d, total - 1 - c, d);
    } else if c < total {
      DivUnique(total - 1 - c, d, 0, total - 1 - c);
    }
  }

  /** Floor division by `d` is monotone. */
  lemma DivMonotone(x: nat, y: nat, d: nat)
    requires d >= 1 && x <= y
    ensures x / d <= y / d
  {
    var qx, rx := x / d, x % d;
    var qy, ry := y / d, y % d;
    assert x == qx * d + rx && y == qy * d + ry;
    if qx > qy {
      MulAtLeast(qx - qy, d);
    }
  }

  /**
   With a step of `d >= 1` that the caller leaves as it is, a run from index
   `c` yields exactly the indices `c + d, c + 2d, ...` that lie below the
   reported frame count, then stops and leaves the source released.
   */
  lemma {:induction false} DriveConstantStep(s: State, calls: nat)
    requires StepFrames(s.mode, s.pendingStep) >= 1
    requires calls > YieldCount(s.frameCount, s.totalFrames, StepFrames(s.mode, s.pendingStep))
    ensures var d := StepFrames(s.mode, s.pendingStep);
      var r := Drive(s, calls);
      && r.labels == Multiples(s.frameCount, d, YieldCount(s.frameCount, s.totalFrames, d))
      && r.stopped
      && r.last.capture.released
    decreases calls
  {
    var d := StepFrames(s.mode, s.pendingStep);
    var c, total := s.frameCount, s.totalFrames;
    var n := YieldCount(c, total, d);
    YieldCountStep(c, total, d);
    if c + d < total {
      var t := Advance(s);
      assert t.step.Yielded? && t.next.frameCount == c + d;
      assert StepFrames(t.next.mode, t.next.pendingStep) == d && t.next.totalFrames == total;
      DriveConstantStep(t.next, calls - 1);
      var rest := Drive(t.next, calls - 1);
      assert Drive(s, calls) == Run([c + d] + rest.labels, rest.stopped, rest.last, t.calls + rest.calls);
      assert Multiples(c, d, n) == [c + d] + Multiples(c + d, d, n - 1);
    }
  }

  /**
   A slicer constructed on a source reporting `total >= 1` frames, stepping
   `d >= 1` frames at a time, yields the indices `d, 2d, ...` below `total`,
   `(total - 1) / d` of them, and stops within `total` calls.
   */
  lemma FreshRun(stream: seq<Frame>, total: nat, mode: Mode)
    requires total >= 1 && StepFrames(mode, 0) >= 1
    ensures var d := StepFrames(mode, 0);
      var r := Drive(Fresh(stream, total, mode), total);
      && r.stopped
      && |r.labels| == (total - 1) / d
      && (forall i :: 0 <= i < |r.labels| ==> r.labels[i] == (i + 1) * d)
  {
    var s := Fresh(stream, total, mode);
    var d := StepFrames(mode, 0);
    var n := (total - 1) / d;
    assert n <= total - 1 by {
      var r := (total - 1) % d;
      assert total - 1 == n * d + r;
      if n >= 1 {
        MulAtLeast(d, n);
        assert d * n == n * d;
      }
    }
    assert YieldCount(0, total, d) == n;
    DriveConstantStep(s, total);
    var labels := Drive(s, total).labels;
    assert labels == Multiples(0, d, n);
    forall i | 0 <= i < n
      ensures labels[i] == (i + 1) * d
    {
      MultiplesAt(0, d, n, i);
    }
  }

  /**
   One-by-one over ten reported frames: nine yields with indices 1 to 9, each
   from a single read, then the tenth call stops and issues the one release.
   */
  lemma TenFramesOneByOne(stream: seq<Frame>)
    ensures var r := Drive(Fresh(stream, 10, OneByOne), 10);
      && r.stopped
      && |r.labels| == 9
      && (forall i :: 0 <= i < 9 ==> r.labels[i] == i + 1)
      && |r.calls| == 10
      && (forall i :: 0 <= i < 9 ==> r.calls[i] == ReadOp)
      && r.calls[9] == ReleaseOp
  {
    assert StepFrames(OneByOne, 0) == 1;
    DivUnique(9, 1, 9, 0);
    FreshRun(stream, 10, OneByOne);
    DriveCalls(Fresh(stream, 10, OneByOne), 10);
  }

  /** A step of 20 frames over 45 reported frames yields indices 20 and 40, and the third call stops. */
  lemma FortyFiveFramesStepTwenty(stream: seq<Frame>)
    ensures Drive(Fresh(stream, 45, FixedStep(20)), 3).labels == [20, 40]
    ensures Drive(Fresh(stream, 45, FixedStep(20)), 3).stopped
    ensures Drive(Fresh(stream, 45, FixedStep(20)), 3).calls == [SeekOp(20), ReadOp, SeekOp(40), ReadOp, ReleaseOp]
  {
    var s := Fresh(stream, 45, FixedStep(20));
    DivUnique(44, 20, 2, 4);
    DriveConstantStep(s, 3);
    assert Multiples(0, 20, 2) == [20, 40];
    DriveCalls(s, 3);
    var calls := Drive(s, 3).calls;
    assert |calls| == 5 && calls[0] == SeekOp(20) && calls[2] == SeekOp(40);
  }

  /**
   The calls a run issued to the source: for each yielded call a single read
   (one-by-one mode) or a seek to the index yielded followed by a read (the
   other modes), and one release, as the last call, exactly when the run
   stopped.
   */
  predicate IssuedCalls(oneByOne: bool, r: Run)
  {
    && |r.calls| == (if oneByOne then 1 else 2) * |r.labels| + (if r.stopped then 1 else 0)
    && (forall i :: 0 <= i < |r.calls| ==> (r.calls[i].ReleaseOp? <==> r.stopped && i == |r.calls| - 1))
    && (oneByOne ==> forall k :: 0 <= k < |r.labels| ==> r.calls[k] == ReadOp)
    && (!oneByOne ==> forall k :: 0 <= k < |r.labels| ==> r.calls[2 * k] == SeekOp(r.labels[k]) && r.calls[2 * k + 1] == ReadOp)
  }

  /** Prefixing one yielded call's read (and seek) to a run keeps the shape `IssuedCalls` describes. */
  lemma IssuedCallsCons(oneByOne: bool, x: nat, c: seq<SourceOp>, rest: Run)
    requires IssuedCalls(oneByOne, rest)
    requires c == if oneByOne then [ReadOp] else [SeekOp(x), ReadOp]
    ensures IssuedCalls(oneByOne, Run([x] + rest.labels, rest.stopped, rest.last, c + rest.calls))
  {
    var r := Run([x] + rest.labels, rest.stopped, rest.last, c + rest.calls);
    forall i | 0 <= i < |r.calls|
      ensures r.calls[i].ReleaseOp? <==> r.stopped && i == |r.calls| - 1
    {
      if i >= |c| {
        assert r.calls[i] == rest.calls[i - |c|];
      }
    }
    if oneByOne {
      forall k | 0 <= k < |r.labels|
        ensures r.calls[k] == ReadOp
      {
        if k > 0 {
          assert r.calls[k] == rest.calls[k - 1];
        }
      }
    } else {
      forall k | 0 <= k < |r.labels|
        ensures r.calls[2 * k] == SeekOp(r.labels[k]) && r.calls[2 * k + 1] == ReadOp
      {
        if k > 0 {
          assert r.calls[2 * k] == rest.calls[2 * (k - 1)] && r.calls[2 * k + 1] == rest.calls[2 * (k - 1) + 1];
          assert r.labels[k] == rest.labels[k - 1];
        }
      }
    }
  }

  /** Whatever steps the caller supplies, a run issues exactly the calls `IssuedCalls` describes. */
  lemma {:induction false} DriveStepsCalls(s: State, steps: seq<nat>)
    ensures IssuedCalls(s.mode.OneByOne?, DriveSteps(s, steps))
    decreases |steps|
  {
    if |steps| > 0 {
      var t := Advance(s.(pendingStep := steps[0]));
      if t.step.Yielded? {
        DriveStepsCalls(t.next, steps[1..]);
        IssuedCallsCons(s.mode.OneByOne?, t.next.frameCount, t.calls, DriveSteps(t.next, steps[1..]));
      }
    }
  }

  /** A run with the step left as it is is the run whose caller supplies that same step before every call. */
  lemma {:induction false} DriveIsConstantSteps(s: State, calls: nat)
    ensures Drive(s, calls) == DriveSteps(s, seq(calls, _ => s.pendingStep))
    decreases calls
  {
    var steps := seq(calls, _ => s.pendingStep);
    if calls > 0 {
      assert s.(pendingStep := steps[0]) == s;
      var t := Advance(s);
      if t.step.Yielded? {
        DriveIsConstantSteps(t.next, calls - 1);
        assert steps[1..] == seq(calls - 1, _ => t.next.pendingStep);
      }
    }
  }

  /**
   The `for` loop's calls to the source: one read per yield in one-by-one
   mode, a seek to each yielded index and a read otherwise, and a single
   release, last, exactly when the loop ended on `StopIteration`.
   */
  lemma DriveCalls(s: State, calls: nat)
    ensures IssuedCalls(s.mode.OneByOne?, Drive(s, calls))
  {
    DriveIsConstantSteps(s, calls);
    DriveStepsCalls(s, seq(calls, _ => s.pendingStep));
  }

  /** Each element is below every later one. */
  predicate StrictlyIncreasing(xs: seq<nat>)
  {
    forall i, j :: 0 <= i < j < |xs| ==> xs[i] < xs[j]
  }

  /** Putting a smaller element in front keeps a sequence strictly increasing. */
  lemma IncreasingCons(x: nat, xs: seq<nat>)
    requires StrictlyIncreasing(xs) && forall k :: 0 <= k < |xs| ==> x < xs[k]
    ensures StrictlyIncreasing([x] + xs)
  {
    var ys := [x] + xs;
    forall i, j | 0 <= i < j < |ys|
      ensures ys[i] < ys[j]
    {
      assert ys[j] == xs[j - 1];
      if i > 0 {
        assert ys[i] == xs[i - 1];
      }
    }
  }

  /**
   With every step the caller supplies at least one frame, the indices a run
   yields lie strictly above the starting index and strictly increase.
   */
  lemma {:induction false} DriveStepsIncreasing(s: State, steps: seq<nat>)
    requires forall i :: 0 <= i < |steps| ==> StepFrames(s.mode, steps[i]) >= 1
    ensures var r := DriveSteps(s, steps);
      && (forall i :: 0 <= i < |r.labels| ==> s.frameCount < r.labels[i])
      && StrictlyIncreasing(r.labels)
    decreases |steps|
  {
    if |steps| > 0 {
      var t := Advance(s.(pendingStep := steps[0]));
      if t.step.Yielded? {
        assert t.next.mode == s.mode;
        assert forall i :: 0 <= i < |steps[1..]| ==> steps[1..][i] == steps[i + 1];
        DriveStepsIncreasing(t.next, steps[1..]);
        var rest := DriveSteps(t.next, steps[1..]);
        assert DriveSteps(s, steps).labels == [t.next.frameCount] + rest.labels;
        IncreasingCons(t.next.frameCount, rest.labels);
      }
    }
  }

  /**
   With every step the caller supplies at least one frame, iteration ends:
   a run given at least one call and at least as many calls as frames remain
   below the reported count stops, with the source released.
   */
  lemma {:induction false} DriveStepsStops(s: State, steps: seq<nat>)
    requires forall i :: 0 <= i < |steps| ==> StepFrames(s.mode, steps[i]) >= 1
    requires |steps| >= 1 && |steps| >= s.totalFrames - s.frameCount
    ensures DriveSteps(s, steps).stopped
    ensures DriveSteps(s, steps).last.capture.released
    decreases |steps|
  {
    var t := Advance(s.(pendingStep := steps[0]));
    if t.step.Yielded? {
      assert t.next.mode == s.mode && t.next.frameCount > s.frameCount;
      assert forall i :: 0 <= i < |steps[1..]| ==> steps[1..][i] == steps[i + 1];
      DriveStepsStops(t.next, steps[1..]);
    }
  }
}
