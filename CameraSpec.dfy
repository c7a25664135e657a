/** The module-level state of the Raspberry Pi camera emulation as a value,
    and each of its operations as a function from state to state. The class
    in module Camera is proved against these functions. */
module CameraSpec {
  import opened Common
  import opened Delivery
  import opened RecordPath

  /** Calls into external processes and the file system, in the order made
      (their outcomes arrive as parameters). */
  datatype Op =
    | PipeClose                         // pclose of the libcamera-vid pipe
    | PipeOpen                          // popen of the libcamera-vid pipe
    | PhotoCommand(path: string)        // libcamera-still to `path`
    | FileOpen(path: string)            // fopen(path, "wb")
    | FileClose                         // fclose of the recording file
    | ConvertCommand(src: string, dst: string)  // ffmpeg from src to dst
    | FileRemove(path: string)          // remove(path)

  datatype CameraState = CameraState(
    initialized: bool,        // camera_init_flag
    photoCount: int,          // s_photoCount
    recordingFlag: bool,      // s_recordingFlag: the requested recording state
    recording: bool,          // s_recording: frames go to the file
    paused: bool,             // s_streaming_paused
    streamOpen: bool,         // s_camera_stream != NULL
    outputOpen: bool,         // s_output_file != NULL
    lastRecordingFlag: bool,  // last_recording_flag of the camera task
    h264Path: string,         // current_h264_path of the camera task
    recorded: seq<byte>,      // contents of the recording file opened last
    fwriteResults: seq<nat>,  // what the recording file accepts on each fwrite call
    sent: seq<seq<byte>>,     // every buffer handed to the video transport
    ops: seq<Op>)

  /** Outcomes of the external calls one camera-task iteration may make. */
  datatype CaptureEnv = CaptureEnv(
    photoPath: string,   // the timestamped photo path
    reopenOk: bool,      // popen on resume succeeds
    videoPath: string,   // the timestamped recording path
    openOk: bool,        // fopen of the recording file succeeds
    convertOk: bool)     // the conversion command returns 0

  /** The state before DjiTest_RaspberryPiCameraInit: every static zero. */
  function Initial(fwriteResults: seq<nat>): CameraState
  {
    CameraState(false, 0, false, false, false, false, false, false, "",
                [], fwriteResults, [], [])
  }

  // ---- Requests from outside the camera task -------------------------------

  function RequestPhoto(c: CameraState): CameraState
  {
    if !c.initialized then c else c.(photoCount := c.photoCount + 1)
  }

  function SetRecordingIntent(c: CameraState, action: bool): CameraState
  {
    if !c.initialized then c else c.(recordingFlag := action)
  }

  // ---- Pause, resume and the photo cycle -----------------------------------

  function Pause(c: CameraState): CameraState
  {
    c.(paused := true, streamOpen := false,
       ops := c.ops + if c.streamOpen then [PipeClose] else [])
  }

  function Resume(c: CameraState, reopenOk: bool): CameraState
  {
    c.(streamOpen := reopenOk, paused := c.paused && !reopenOk, ops := c.ops + [PipeOpen])
  }

  /** The still-capture command. */
  function CapturePhoto(c: CameraState, path: string): CameraState
  {
    c.(ops := c.ops + [PhotoCommand(path)])
  }

  /** One pending photo request is done; the count never goes below zero. */
  function ConsumeRequest(c: CameraState): CameraState
  {
    c.(photoCount := if c.photoCount > 0 then c.photoCount - 1 else c.photoCount)
  }

  /** Pause, capture, resume, then consume one pending request. */
  function PhotoCycle(c: CameraState, e: CaptureEnv): CameraState
  {
    ConsumeRequest(Resume(CapturePhoto(Pause(c), e.photoPath), e.reopenOk))
  }

  // ---- The recording controller ---------------------------------------------

  function StartRecording(c: CameraState, path: string, openOk: bool): CameraState
  {
    c.(recording := openOk, h264Path := path, outputOpen := openOk,
       recorded := if openOk then [] else c.recorded,
       ops := c.ops + [FileOpen(path)])
  }

  /** The external calls made after closing the file: the conversion, and the
      removal of the `.h264` file only when the conversion returned 0. */
  function ConversionOps(path: string, convertOk: bool): seq<Op>
  {
    match Mp4Path(path)
    case None => []
    case Some(mp4) => [ConvertCommand(path, mp4)] + if convertOk then [FileRemove(path)] else []
  }

  function StopRecording(c: CameraState, convertOk: bool): CameraState
  {
    if !c.outputOpen then c.(recording := false)
    else if |c.h264Path| == 0 then
      c.(recording := false, outputOpen := false, ops := c.ops + [FileClose])
    else
      c.(recording := false, outputOpen := false, h264Path := "",
         ops := c.ops + [FileClose] + ConversionOps(c.h264Path, convertOk))
  }

  /** The recording controller: act on a change of intent since the last
      iteration, then remember the intent. */
  function RecordingControl(c: CameraState, intent: bool, e: CaptureEnv): CameraState
  {
    if c.lastRecordingFlag == intent then c
    else
      var c2 := if intent then StartRecording(c, e.videoPath, e.openOk)
                else StopRecording(c, e.convertOk);
      c2.(lastRecordingFlag := intent)
  }

  /** One iteration of the camera task's loop; the recording intent is read
      before the photo branch runs. */
  function CaptureIteration(c: CameraState, e: CaptureEnv): CameraState
  {
    var c1 := if c.photoCount > 0 then PhotoCycle(c, e) else c;
    RecordingControl(c1, c.recordingFlag, e)
  }

  /** Iterations of the camera task, one per environment. */
  function RunCapture(c: CameraState, es: seq<CaptureEnv>): CameraState
  {
    if es == [] then c else CaptureIteration(RunCapture(c, es[..|es| - 1]), es[|es| - 1])
  }

  /** Opening the pipe when the stream task starts. */
  function OpenStream(c: CameraState, popenOk: bool): CameraState
  {
    c.(streamOpen := popenOk, ops := c.ops + [PipeOpen])
  }

  // ---- Delivering units -----------------------------------------------------

  /** The recording file is written only when recording and the file is open. */
  predicate RecordingOn(c: CameraState)
  {
    c.recording && c.outputOpen
  }

  /** The fwrite retry loop on one frame: the file gets what it accepts. */
  function WriteToFile(c: CameraState, frame: seq<byte>): CameraState
  {
    var w := Drain(c.fwriteResults, |frame|);
    c.(recorded := c.recorded + frame[..w.0], fwriteResults := w.1)
  }

  /** One frame handed to the video transport, fragmented when large. */
  function Transmit(c: CameraState, frame: seq<byte>): CameraState
  {
    c.(sent := c.sent + Fragments(frame))
  }

  /** One unit through `DjiTest_ProcessSingleNALUnit`. */
  function Deliver(c: CameraState, unit: seq<byte>): CameraState
  {
    if |unit| == 0 then c
    else
      var frame := Annotate(unit);
      Transmit(if RecordingOn(c) then WriteToFile(c, frame) else c, frame)
  }

  function DeliverAll(c: CameraState, units: seq<seq<byte>>): CameraState
  {
    if units == [] then c else Deliver(DeliverAll(c, units[..|units| - 1]), units[|units| - 1])
  }

  /** The frames of a run of units, in order. */
  function Frames(units: seq<seq<byte>>): seq<byte>
  {
    if units == [] then [] else Frames(units[..|units| - 1]) + Annotate(units[|units| - 1])
  }

  // ---- Invariant -------------------------------------------------------------

  /** The sequential invariant: no negative photo count, the file is open
      exactly while recording (and only while the last intent was to record),
      and the stream is never open while paused. */
  ghost predicate Inv(c: CameraState)
  {
    && c.photoCount >= 0
    && c.recording == c.outputOpen
    && (c.outputOpen ==> c.lastRecordingFlag)
    && (c.paused ==> !c.streamOpen)
  }

  lemma InitialInv(fwriteResults: seq<nat>)
    ensures Inv(Initial(fwriteResults))
  {
  }

  /** The external calls of the photo branch. */
  function PhotoOps(c: CameraState, e: CaptureEnv): seq<Op>
  {
    (if c.streamOpen then [PipeClose] else []) + [PhotoCommand(e.photoPath), PipeOpen]
  }

  /** The external calls of the recording branch, made on state `c`. */
  function RecordOps(c: CameraState, intent: bool, e: CaptureEnv): seq<Op>
  {
    if c.lastRecordingFlag == intent then []
    else if intent then [FileOpen(e.videoPath)]
    else if !c.outputOpen then []
    else if |c.h264Path| == 0 then [FileClose]
    else [FileClose] + ConversionOps(c.h264Path, e.convertOk)
  }

  lemma PhotoCycleEffect(c: CameraState, e: CaptureEnv)
    ensures var r := PhotoCycle(c, e);
      && r.ops == c.ops + PhotoOps(c, e)
      && r == c.(photoCount := r.photoCount, paused := r.paused, streamOpen := r.streamOpen, ops := r.ops)
      && r.photoCount == (if c.photoCount > 0 then c.photoCount - 1 else c.photoCount)
      && r.streamOpen == e.reopenOk && r.paused == !e.reopenOk
  {
  }

  lemma CaptureIterationOps(c: CameraState, e: CaptureEnv)
    ensures var c1 := if c.photoCount > 0 then PhotoCycle(c, e) else c;
      CaptureIteration(c, e).ops
        == c.ops + (if c.photoCount > 0 then PhotoOps(c, e) else []) + RecordOps(c1, c.recordingFlag, e)
  {
    PhotoCycleEffect(c, e);
  }

  lemma CaptureIterationKeepsInv(c: CameraState, e: CaptureEnv)
    requires Inv(c)
    ensures Inv(CaptureIteration(c, e))
  {
    PhotoCycleEffect(c, e);
    var c1 := if c.photoCount > 0 then PhotoCycle(c, e) else c;
    assert Inv(c1);
  }

  lemma {:induction false} RunCaptureKeepsInv(c: CameraState, es: seq<CaptureEnv>)
    requires Inv(c)
    ensures Inv(RunCapture(c, es))
  {
    if es != [] {
      RunCaptureKeepsInv(c, es[..|es| - 1]);
      CaptureIterationKeepsInv(RunCapture(c, es[..|es| - 1]), es[|es| - 1]);
    }
  }

  /** Requests and stream start-up keep the invariant (the pipe is opened
      only while not paused); delivering units keeps every control field. */
  lemma OtherOperationsKeepInv(c: CameraState, action: bool, popenOk: bool, units: seq<seq<byte>>)
    requires Inv(c)
    ensures Inv(RequestPhoto(c)) && Inv(SetRecordingIntent(c, action))
    ensures !c.paused ==> Inv(OpenStream(c, popenOk))
    ensures Inv(DeliverAll(c, units))
  {
    DeliverAllOnlyTouchesSinks(c, units);
  }

  // ---- Properties of the camera task ---------------------------------------

  /** A pending request is served by exactly one capture and consumes exactly
      one request; the stream is open and unpaused afterwards exactly when
      reopening succeeded. Without a pending request no photo is taken. */
  lemma PhotoIterationConsumesOneRequest(c: CameraState, e: CaptureEnv)
    requires Inv(c)
    ensures var r := CaptureIteration(c, e);
      && (c.photoCount > 0 ==>
            && r.photoCount == c.photoCount - 1
            && r.streamOpen == e.reopenOk && r.paused == !e.reopenOk
            && |c.ops| <= |r.ops| && PhotoCommand(e.photoPath) in r.ops[|c.ops|..])
      && (c.photoCount <= 0 ==>
            && r.photoCount == c.photoCount
            && forall k :: |c.ops| <= k < |r.ops| ==> !r.ops[k].PhotoCommand?)
  {
    PhotoCycleEffect(c, e);
    CaptureIterationOps(c, e);
    var r := CaptureIteration(c, e);
    if c.photoCount > 0 {
      var pre := if c.streamOpen then [PipeClose] else [];
      assert r.ops[|c.ops| + |pre|] == PhotoCommand(e.photoPath);
    }
  }

  /** Recording changes only on a change of intent: with the intent equal to
      the last one seen, an iteration leaves the recording state and file
      calls alone. */
  lemma NoRecordingChangeWithoutNewIntent(c: CameraState, e: CaptureEnv)
    requires c.recordingFlag == c.lastRecordingFlag && c.photoCount <= 0
    ensures CaptureIteration(c, e) == c
  {
  }

  /** Every removal among `ops[from..]` comes right after the conversion of
      that same file to its `.mp4` name, and only when conversions succeed. */
  ghost predicate RemovalsGuarded(ops: seq<Op>, from: nat, convertOk: bool)
  {
    forall k :: from <= k < |ops| && ops[k].FileRemove? ==>
      && convertOk && from < k
      && ops[k - 1].ConvertCommand? && ops[k - 1].src == ops[k].path
      && Mp4Path(ops[k].path) == Some(ops[k - 1].dst)
  }

  /** The intermediate `.h264` file is removed only right after a conversion
      of that same file that returned 0. */
  lemma RemoveOnlyAfterConversion(c: CameraState, e: CaptureEnv)
    ensures var r := CaptureIteration(c, e);
      |c.ops| <= |r.ops| && r.ops[..|c.ops|] == c.ops && RemovalsGuarded(r.ops, |c.ops|, e.convertOk)
  {
    CaptureIterationOps(c, e);
    var c1 := if c.photoCount > 0 then PhotoCycle(c, e) else c;
    RemoveFollowsConvert(c1, c.recordingFlag, e);
    GuardedBehind(c.ops, if c.photoCount > 0 then PhotoOps(c, e) else [],
                  RecordOps(c1, c.recordingFlag, e), e.convertOk);
  }

  /** Behind a prefix and a stretch without removals, guarded removals stay
      guarded. */
  lemma GuardedBehind(pre: seq<Op>, p: seq<Op>, q: seq<Op>, convertOk: bool)
    requires forall i :: 0 <= i < |p| ==> !p[i].FileRemove?
    requires RemovalsGuarded(q, 0, convertOk)
    ensures (pre + p + q)[..|pre|] == pre && RemovalsGuarded(pre + p + q, |pre|, convertOk)
  {
    assert RemovalsGuarded(p + q, 0, convertOk) by {
      GuardedAfter(p, q, convertOk);
    }
    GuardedAfter(pre, p + q, convertOk);
    assert pre + p + q == pre + (p + q);
  }

  lemma RemoveFollowsConvert(c: CameraState, intent: bool, e: CaptureEnv)
    ensures RemovalsGuarded(RecordOps(c, intent, e), 0, e.convertOk)
  {
  }

  /** Removals guarded in `q` stay guarded behind any prefix. */
  lemma GuardedAfter(pre: seq<Op>, q: seq<Op>, convertOk: bool)
    requires RemovalsGuarded(q, 0, convertOk)
    ensures RemovalsGuarded(pre + q, |pre|, convertOk)
  {
    forall k | |pre| <= k < |pre + q| && (pre + q)[k].FileRemove?
      ensures convertOk && |pre| < k
      ensures (pre + q)[k - 1].ConvertCommand? && (pre + q)[k - 1].src == (pre + q)[k].path
      ensures Mp4Path((pre + q)[k].path) == Some((pre + q)[k - 1].dst)
    {
      assert (pre + q)[k] == q[k - |pre|];
      assert (pre + q)[k - 1] == q[k - 1 - |pre|];
    }
  }

  /** A false->true->false cycle of the intent with a successful open opens
      exactly one file, closes it, converts it exactly once, and removes it
      only when the conversion succeeded; afterwards the controller is idle
      and the path is cleared. */
  lemma RecordingCycle(c: CameraState, base: string, e1: CaptureEnv, e2: CaptureEnv)
    requires Inv(c) && c.initialized && !c.lastRecordingFlag && c.photoCount == 0
    requires e1.openOk && e1.videoPath == base + ".h264"
    ensures var c1 := CaptureIteration(SetRecordingIntent(c, true), e1);
      var c2 := CaptureIteration(SetRecordingIntent(c1, false), e2);
      && c1.recording && c1.outputOpen && c1.recorded == []
      && c2.ops == c.ops + [FileOpen(base + ".h264"), FileClose,
                            ConvertCommand(base + ".h264", base + ".mp4")]
                        + (if e2.convertOk then [FileRemove(base + ".h264")] else [])
      && !c2.recording && !c2.outputOpen && !c2.lastRecordingFlag && c2.h264Path == ""
  {
    Mp4PathRewrite(base);
    var c0 := SetRecordingIntent(c, true);
    var c1 := CaptureIteration(c0, e1);
    assert c1 == StartRecording(c0, e1.videoPath, true).(lastRecordingFlag := true);
    var c2 := CaptureIteration(SetRecordingIntent(c1, false), e2);
    assert ConversionOps(base + ".h264", e2.convertOk)
        == [ConvertCommand(base + ".h264", base + ".mp4")]
           + (if e2.convertOk then [FileRemove(base + ".h264")] else []);
  }

  /** With the intent equal to the last one seen, an iteration (photo or
      not) leaves the recording controller alone: the recording state, the
      file and its path are kept, and no file is opened. */
  lemma SameIntentKeepsRecording(c: CameraState, e: CaptureEnv)
    requires c.recordingFlag == c.lastRecordingFlag
    ensures var r := CaptureIteration(c, e);
      && r.recordingFlag == c.recordingFlag && r.lastRecordingFlag == c.lastRecordingFlag
      && r.recording == c.recording && r.outputOpen == c.outputOpen && r.h264Path == c.h264Path
      && |c.ops| <= |r.ops| && r.ops[..|c.ops|] == c.ops
      && forall k :: |c.ops| <= k < |r.ops| ==> !r.ops[k].FileOpen?
  {
    PhotoCycleEffect(c, e);
    CaptureIterationOps(c, e);
  }

  /** The same for any run of iterations with that intent. */
  lemma {:induction false} SameIntentRunsKeepRecording(c: CameraState, es: seq<CaptureEnv>)
    requires c.recordingFlag == c.lastRecordingFlag
    ensures var r := RunCapture(c, es);
      && r.recordingFlag == c.recordingFlag && r.lastRecordingFlag == c.lastRecordingFlag
      && r.recording == c.recording && r.outputOpen == c.outputOpen && r.h264Path == c.h264Path
      && |c.ops| <= |r.ops| && r.ops[..|c.ops|] == c.ops
      && forall k :: |c.ops| <= k < |r.ops| ==> !r.ops[k].FileOpen?
    decreases |es|
  {
    if es != [] {
      var prev := RunCapture(c, es[..|es| - 1]);
      SameIntentRunsKeepRecording(c, es[..|es| - 1]);
      SameIntentKeepsRecording(prev, es[|es| - 1]);
      var r := RunCapture(c, es);
      assert r == CaptureIteration(prev, es[|es| - 1]);
      assert r.ops[..|prev.ops|] == prev.ops;
      assert r.ops[..|c.ops|] == prev.ops[..|c.ops|];
      forall k | |c.ops| <= k < |r.ops|
        ensures !r.ops[k].FileOpen?
      {
        if k < |prev.ops| {
          assert r.ops[k] == r.ops[..|prev.ops|][k];
        }
      }
    }
  }

  /** A failed open leaves nothing recording but records the intent as
      seen, whether or not a photo is pending, so no later iteration with the
      same intent retries the open or starts recording. */
  lemma FailedOpenNotRetried(c: CameraState, e1: CaptureEnv, es: seq<CaptureEnv>)
    requires c.recordingFlag && !c.lastRecordingFlag && !e1.openOk
    ensures var c1 := CaptureIteration(c, e1);
      && !c1.recording && !c1.outputOpen && c1.lastRecordingFlag
      && |c.ops| < |c1.ops| && c1.ops[|c1.ops| - 1] == FileOpen(e1.videoPath)
      && var r := RunCapture(c1, es);
         && !r.recording && !r.outputOpen && r.lastRecordingFlag
         && |c1.ops| <= |r.ops| && r.ops[..|c1.ops|] == c1.ops
         && forall k :: |c1.ops| <= k < |r.ops| ==> !r.ops[k].FileOpen?
  {
    PhotoCycleEffect(c, e1);
    var c1 := CaptureIteration(c, e1);
    SameIntentRunsKeepRecording(c1, es);
  }

  /** Without a pending photo, the iteration with the failed open makes that
      open as its only call, and later iterations with the same intent change
      nothing at all. */
  lemma FailedOpenIdleAfterwards(c: CameraState, e1: CaptureEnv, es: seq<CaptureEnv>)
    requires c.recordingFlag && !c.lastRecordingFlag && c.photoCount == 0
    requires !e1.openOk
    ensures var c1 := CaptureIteration(c, e1);
      && c1.ops == c.ops + [FileOpen(e1.videoPath)]
      && RunCapture(c1, es) == c1
  {
    var c1 := CaptureIteration(c, e1);
    IdleRunsChangeNothing(c1, es);
  }

  lemma {:induction false} IdleRunsChangeNothing(c: CameraState, es: seq<CaptureEnv>)
    requires c.recordingFlag == c.lastRecordingFlag && c.photoCount <= 0
    ensures RunCapture(c, es) == c
  {
    if es != [] {
      IdleRunsChangeNothing(c, es[..|es| - 1]);
    }
  }

  // ---- Properties of delivery ------------------------------------------------

  /** Delivering units changes only the send log, the recording file and the
      file's remaining write behaviour. */
  lemma {:induction false} DeliverAllOnlyTouchesSinks(c: CameraState, units: seq<seq<byte>>)
    ensures var r := DeliverAll(c, units);
      r.(recorded := c.recorded, fwriteResults := c.fwriteResults, sent := c.sent) == c
  {
    if units != [] {
      var prev := DeliverAll(c, units[..|units| - 1]);
      DeliverAllOnlyTouchesSinks(c, units[..|units| - 1]);
      DeliverOnlyTouchesSinks(prev, units[|units| - 1]);
    }
  }

  lemma DeliverOnlyTouchesSinks(c: CameraState, unit: seq<byte>)
    ensures Deliver(c, unit).(recorded := c.recorded, fwriteResults := c.fwriteResults, sent := c.sent) == c
  {
    if |unit| > 0 {
      var frame := Annotate(unit);
      var w := if RecordingOn(c) then WriteToFile(c, frame) else c;
      assert w.(recorded := c.recorded, fwriteResults := c.fwriteResults) == c;
      assert Transmit(w, frame).(sent := w.sent) == w;
    }
  }

  /** Whatever the transport's status codes, the buffers sent for a run of
      non-empty units put back together are the annotated units in order. */
  lemma {:induction false} DeliverAllSendsFrames(c: CameraState, units: seq<seq<byte>>)
    requires forall k :: 0 <= k < |units| ==> |units[k]| > 0
    ensures Flatten(DeliverAll(c, units).sent) == Flatten(c.sent) + Frames(units)
  {
    if units != [] {
      var init := units[..|units| - 1];
      var u := units[|units| - 1];
      DeliverAllSendsFrames(c, init);
      var prev := DeliverAll(c, init);
      FlattenAppend(prev.sent, Fragments(Annotate(u)));
      FragmentsOfFrame(Annotate(u));
    }
  }

  /** Without recording nothing reaches the file and its write behaviour is
      untouched, however many units are delivered. */
  lemma {:induction false} DeliverAllRecordsNothingWhenOff(c: CameraState, units: seq<seq<byte>>)
    requires !RecordingOn(c)
    ensures DeliverAll(c, units).recorded == c.recorded
    ensures DeliverAll(c, units).fwriteResults == c.fwriteResults
  {
    if units != [] {
      DeliverAllRecordsNothingWhenOff(c, units[..|units| - 1]);
      DeliverAllOnlyTouchesSinks(c, units[..|units| - 1]);
    }
  }

  /** Delivering one more unit after a run. */
  lemma DeliverAllSnoc(c: CameraState, units: seq<seq<byte>>, u: seq<byte>)
    ensures DeliverAll(c, units + [u]) == Deliver(DeliverAll(c, units), u)
  {
    assert (units + [u])[..|units|] == units;
  }

  /** While recording, one unit appends to the file the longest prefix of its
      annotated frame that the file accepts before reporting an error: the
      whole frame when it accepts that much. Either way the frame is sent. */
  lemma DeliverWritesAcceptedPrefix(c: CameraState, unit: seq<byte>)
    requires RecordingOn(c) && |unit| > 0
    ensures var frame := Annotate(unit);
      var w := if Accepted(c.fwriteResults) < |frame| then Accepted(c.fwriteResults) else |frame|;
      && Deliver(c, unit).recorded == c.recorded + frame[..w]
      && Deliver(c, unit).sent == c.sent + Fragments(frame)
  {
    DrainWritesAccepted(c.fwriteResults, |Annotate(unit)|);
  }
}
