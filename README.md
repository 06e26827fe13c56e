# MP4VideoSlicer in Dafny

A model of the frame-stepping core of the optical-flow tracker: the
`MP4VideoSlicer` iterator from `preprocessing/video_slicing.py`. The
iterator walks a recorded video and supplies frames to the motion
estimator. Each call to `__next__` does four things:

- It works out a target frame index. The step is one frame, a fixed
  number of frames, or a number of frames the caller supplies before
  the call.
- It stops if the target reaches the frame count the video's metadata
  reports. Stopping releases the capture source.
- Otherwise it reads a frame. One-by-one mode reads sequentially; the
  other two modes seek to the target first.
- It commits the target as `frame_count` and returns the read's
  `(ret, frame)` pair unchanged.

Files:

- `slicer_model.dfy` (module `SlicerModel`) holds the value-level model.
  The OpenCV capture is a value owned by the slicer (`Capture`: the frames
  its stream decodes to, the read cursor, the released flag), with `Read`,
  `Seek` and `Release`. Three definitions state the stepping:
  - `ModeOf` chooses the mode from the constructor's flags.
  - `Advance` is one call of `__next__`, as a transition between states.
  - `Drive` is a run of calls ending at the first `StopIteration`, with
    the step left as it is; `DriveSteps` is the same run when the caller
    supplies a new step before each call. A run records the indices
    yielded, whether it stopped, the final state and the calls issued to
    the source.
- `slicer_properties.dfy` (module `SlicerProperties`) proves lemmas about
  those functions:
  - which frame a call reads, and from where;
  - what happens at and after the end of the sequence;
  - exactly which indices a run yields, and which calls it issues to the
    source;
  - that a run stops when every step is at least one frame, whether the
    step is constant or supplied afresh before each call.
- `video_slicer.dfy` (module `VideoSlicing`) is the class
  `MP4VideoSlicer`. Its fields are `frameCount`, `totalFrames`, `mode`,
  `pendingStep`, `capture` and a ghost `trace` of the calls issued to the
  source. `Next` is proved equal to `Advance`, `Collect` to `Drive` and
  `CollectWithSteps` to `DriveSteps`, including the calls they issue; the
  constructor is proved to build the state `Fresh` describes, and
  `SetNextStep` and `Cleanup` state their new state field by field.
  `Valid()` keeps three facts:
  - the index is below the reported frame count, or still 0 (on a source
    reporting no frames it stays 0 with nothing yielded);
  - the source is released exactly when a release has been issued;
  - one-by-one mode never seeks.

Some behaviours of the code that the model makes explicit:

- In one-by-one mode no seek is issued. The frame therefore comes from
  the source's own cursor. On a freshly opened capture the first call
  returns the frame at index 0 while `frame_count` becomes 1. In general a
  cursor level with the index before the step is level with the new index
  after it, while the frame returned is the one at the old index
  (`OneByOneReadsCursor`).
- A step of zero frames never advances (`ZeroStepNeverStops`). This
  happens in external mode when the caller leaves `next_step_seconds` at
  its initial 0.0 (or supplies a step whose product with the frame rate
  lies in (-1, 0]). In fixed-step mode it happens when `increment` is 0, when
  the reported frame rate is 0, or when `increment * fps` lies in (-1, 0];
  `math.ceil` never takes a positive product down to 0. The same
  frame is sought and read on every call, and iteration does not end while
  the index is in range.
- After `StopIteration` the code accepts further calls. Stopping is final
  only while the caller leaves the step unchanged (`StopIsFinal`). In
  external mode a later call with a smaller step reads from the released
  source, and that read fails (`ReleasedSourceReadsNothing`).
- `__next__` does not release the source when a read raises an exception;
  its caller, the recorded-video input in `acquisition/video.py` (lines
  82-84), does. The model has no exceptions (see Left out).

## Model

| member | source | states |
|---|---|---|
| `SlicerModel.ModeOf` | preprocessing/video_slicing.py:23-29 | one-by-one exactly when `autoincrement` is set and `increment` is None; fixed step exactly when both are set, with that increment; external exactly when `autoincrement` is off, whatever `increment` is |
| `SlicerModel.Advance` | preprocessing/video_slicing.py:22-43 | a call stops if and only if the target is at or past `total_frames`; stopping keeps `frame_count` and releases the source with one release call; yielding makes `frame_count` the target, below `total_frames`, issues exactly a read in one-by-one mode and exactly a seek to the target followed by a read otherwise, and never releases; the index never decreases and the range invariant is preserved |
| `SlicerModel.Drive` | preprocessing/video_slicing.py:72 | a run of at most `calls` calls yields at most that many indices, all in `[frame_count, total_frames)`; a run that stopped used fewer calls than allowed and left the source released; the final index is not below the first |
| `SlicerModel.DriveSteps` | acquisition/video.py:73-75 | a run where the caller supplies each call's step first yields at most one index per step, all in `[frame_count, total_frames)`; a run that stopped used fewer calls than steps and left the source released; the reported frame count and the mode are kept |
| `SlicerProperties.YieldPassesReadThrough` | preprocessing/video_slicing.py:35-43 | every call that does not stop returns the read's pair unchanged: the flag is set exactly when the source is live and has a decodable frame at the index read (the cursor in one-by-one mode, the target otherwise), and the frame is that stream frame on success and the empty frame otherwise, including a released source and an index past the decoded stream; a live source's cursor ends one past the index read when that index is inside the stream (decodable or not) and at the index read otherwise |
| `SlicerProperties.SeekModesReadTarget` | preprocessing/video_slicing.py:38-40 | in fixed-step and external modes, on a live source, the calls are a seek to the target then a read, and the frame returned is the stream's frame at the target |
| `SlicerProperties.OneByOneReadsCursor` | preprocessing/video_slicing.py:35-37 | in one-by-one mode only a read is issued; the frame returned is the one at the source's cursor, not at the new index; a cursor level with `frame_count` stays level after the step |
| `SlicerProperties.ReleasedSourceReadsNothing` | preprocessing/video_slicing.py:31-40 | a call after release that does not stop returns `(False, None)` and leaves the source as it was |
| `SlicerProperties.ExternalZeroStepRereads` | preprocessing/video_slicing.py:29 | in external mode with a zero step the index stays put and the same index is sought and read again |
| `SlicerProperties.StrictProgress` | preprocessing/video_slicing.py:25-29 | with a step of at least one frame, every yielded call strictly increases `frame_count` |
| `SlicerProperties.ReleaseIdempotent` | preprocessing/video_slicing.py:45-46 | releasing twice leaves the source as releasing once does |
| `SlicerProperties.StopIsFinal` | preprocessing/video_slicing.py:31-33 | after a stop, with the step unchanged, the next call stops again and changes no state |
| `SlicerProperties.ZeroStepNeverStops` | preprocessing/video_slicing.py:27-31 | with a zero-frame step and the index in range, any number of calls all yield, each at the same index |
| `SlicerProperties.EmptySourceStops` | preprocessing/video_slicing.py:15-33 | on a source reporting no frames, the first call stops and releases the source, in every mode |
| `SlicerProperties.DriveConstantStep` | preprocessing/video_slicing.py:25-42 | with a constant step `d >= 1` from index `c`, a run yields exactly `c+d, c+2d, ...` below `total_frames`, then stops with the source released |
| `SlicerProperties.FreshRun` | preprocessing/video_slicing.py:15-31 | a new slicer over `N >= 1` reported frames with step `d >= 1` stops within `N` calls, after `(N-1)/d` yields at indices `d, 2d, ...` |
| `SlicerProperties.TenFramesOneByOne` | preprocessing/video_slicing.py:25 | one-by-one over 10 reported frames yields 9 indices, the i-th being i+1 (1 to 9), and the tenth call stops; the calls issued are nine reads and then one release, ten in all |
| `SlicerProperties.FortyFiveFramesStepTwenty` | preprocessing/video_slicing.py:27 | a 20-frame step over 45 reported frames yields indices 20 and 40, and the third call stops; the calls issued are exactly a seek to 20, a read, a seek to 40, a read and a release |
| `SlicerProperties.DriveStepsCalls` | preprocessing/video_slicing.py:31-40 | whatever steps the caller supplies, a run issues one read per yield in one-by-one mode, a seek to each yielded index followed by a read in the other modes, and a release exactly when the run stopped, as its last call and only there |
| `SlicerProperties.DriveIsConstantSteps` | preprocessing/video_slicing.py:29 | a run with the step left as it is equals the run whose caller supplies that same step before every call |
| `SlicerProperties.DriveCalls` | preprocessing/video_slicing.py:72 | the `for` loop issues one read per yield in one-by-one mode, a seek to each yielded index and a read otherwise, and releases the source exactly once, as its last call, exactly when it ended on `StopIteration` |
| `SlicerProperties.DriveStepsIncreasing` | acquisition/video.py:73-75 | with every supplied step at least one frame, the indices yielded lie above the starting index and strictly increase |
| `SlicerProperties.DriveStepsStops` | preprocessing/video_slicing.py:25-33 | with every supplied step at least one frame, a run given at least one call and at least as many calls as frames remain below `total_frames` stops and leaves the source released |
| `VideoSlicing.MP4VideoSlicer.constructor` | preprocessing/video_slicing.py:7-17 | a new slicer has index 0, step 0, a freshly opened unreleased source, the mode `ModeOf` selects, and an empty call trace |
| `VideoSlicing.MP4VideoSlicer.SetNextStep` | acquisition/video.py:73 | the caller's step (the attribute initialised to 0.0 at line 14 of preprocessing/video_slicing.py) is replaced and nothing else changes |
| `VideoSlicing.MP4VideoSlicer.Cleanup` | preprocessing/video_slicing.py:45-46 | only the source changes: it is released and one release call is recorded; when it was already released the state is unchanged |
| `VideoSlicing.MP4VideoSlicer.Next` | preprocessing/video_slicing.py:22-43 | the call's result, new state and issued calls are exactly those of `Advance`; stopping keeps the index and releases the source; yielding leaves the index in `[old index, total_frames)`; `Valid()` is kept |
| `VideoSlicing.MP4VideoSlicer.Collect` | preprocessing/video_slicing.py:72 | calling `Next` until it stops, at most `maxCalls` times, returns exactly the indices, stop flag and final state of `Drive`, and appends exactly the run's calls to the trace; `Valid()` is kept |
| `VideoSlicing.MP4VideoSlicer.CollectWithSteps` | acquisition/video.py:63-75 | setting each supplied step and then calling `Next`, until a call stops or the steps run out, returns exactly the indices, stop flag and final state of `DriveSteps`, and appends exactly the run's calls to the trace; `Valid()` is kept |

## Left out

- The `math.ceil(seconds * fps)` float products (lines 27 and 29) are not modelled. Steps are whole frame counts computed outside the model: the fixed step is given to the constructor, and the external step is supplied through `SetNextStep`. `video_fps` is therefore not a field.
- `VideoSlicing.MP4VideoSlicer.SetNextStep`: the step is a `nat`, so the model excludes negative steps. The source does not guard against them. A negative `next_step_seconds` or `increment` would move `frame_count` backwards, and the monotonicity lemmas would not hold.
- `VideoSlicing.MP4VideoSlicer.constructor`: `totalFrames` is a `nat`. OpenCV can report a negative frame count for some sources; with such a count every call would stop.
- The constructor's parameters stand in for opening the video by path. The decoded stream and the reported frame count come from outside the model. The capture's width and height (lines 11-12) are used only by the export and are not modelled.
- Exceptions raised inside a read, and their propagation, are not modelled. Every read returns a result.
- The OpenCV capture is modelled simply: a seek sets the cursor exactly, and a read advances it by one when the cursor is inside the stream, whether or not the frame there decodes. Imprecise seeking to keyframes is not captured.
- `MP4VideoPreprocessor.process` (lines 50-82) is left out apart from its iteration loop. This covers directory creation, the video writer, image files and the timestamp computed by float division.
- `VideoSlicing.MP4VideoSlicer.Collect` and `SlicerModel.Drive`: the number of calls is bounded by a parameter, because a zero-frame step never stops. Python's loop has no such bound.
- `VideoSlicing.MP4VideoSlicer.CollectWithSteps` and `SlicerModel.DriveSteps`: the repeated frame requests are bounded by the list of steps supplied. The first request assigns no step (its 0.001-second placeholder stays local), which a supplied step of 0, the initial value, reproduces. The wall clock that produces each step, the frame preprocessing and the timing message are not modelled.
- The motion estimator (`processing/matrix_operations.py`) and the pose accumulator (`processing/infer.py`) are not part of this model. They are floating-point numerics built on foreign linear-algebra and trigonometry calls.
- The camera inputs and the wall-clock timing (`acquisition/video.py`), the interactive windows (`start.py`, `rmain2.py`), command-line parsing (`preprocess_video.py`) and drawing (`processing/visualize.py`) are not part of this model.
