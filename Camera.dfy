/** The Raspberry Pi camera emulation: module-level state as the fields of
    one object, the H.264 byte-stream accumulator over an array, the framer
    and the per-unit pipeline, and the camera task's control logic. Process,
    file and transport calls are abstract: their outcomes are parameters and
    their effects are recorded in the state. */
module Camera {
  import opened Common
  import opened Framing
  import opened Delivery
  import opened RecordPath
  import opened CameraSpec

  /** Initial accumulator capacity and the stream task's read size. */
  const VIDEO_BUFFER_SIZE: nat := 1024 * 4

  class RaspberryPiCamera {
    var initialized: bool
    var taskRunning: bool
    var photoCount: int
    var recordingFlag: bool
    var recording: bool
    var paused: bool
    var streamOpen: bool
    var outputOpen: bool
    var lastRecordingFlag: bool
    var h264Path: string
    var recorded: seq<byte>
    var fwriteResults: seq<nat>
    var sent: seq<seq<byte>>
    var ops: seq<Op>

    // The accumulator: s_nal_buffer, s_nal_buffer_size, s_nal_buffer_capacity.
    var nalBuffer: array?<byte>
    var nalSize: nat
    var nalCapacity: nat

    /** Every byte appended to the accumulator so far, and every unit handed
        to the per-unit pipeline so far. */
    ghost var received: seq<byte>
    ghost var units: seq<seq<byte>>

    ghost function Model(): CameraState
      reads this`initialized, this`photoCount, this`recordingFlag, this`recording, this`paused,
            this`streamOpen, this`outputOpen, this`lastRecordingFlag, this`h264Path,
            this`recorded, this`fwriteResults, this`sent, this`ops
    {
      CameraState(initialized, photoCount, recordingFlag, recording, paused, streamOpen,
                  outputOpen, lastRecordingFlag, h264Path, recorded, fwriteResults, sent, ops)
    }

    /** The bytes held by the accumulator. */
    ghost function Buffered(): seq<byte>
      reads this`nalBuffer, this`nalSize, nalBuffer
      requires nalBuffer != null && nalSize <= nalBuffer.Length
    {
      nalBuffer[..nalSize]
    }

    /** The accumulator stays within its capacity, and what has been handed
        on is exactly the framing of everything received, with the buffer
        holding the part of it not yet consumed. */
    ghost predicate Valid()
      reads this`nalBuffer, this`nalSize, this`nalCapacity, this`received, this`units, nalBuffer
    {
      && nalSize <= nalCapacity
      && (nalBuffer == null ==> nalSize == 0 && received == [] && units == [])
      && (nalBuffer != null ==>
            && nalBuffer.Length == nalCapacity
            && Frame(received).units == units
            && Buffered() == received[Frame(received).consumed..])
    }

    /** The statics before initialisation. */
    constructor (fwriteResults: seq<nat>)
      ensures Valid() && Model() == Initial(fwriteResults)
      ensures nalBuffer == null && nalCapacity == 0 && !taskRunning
    {
      initialized, taskRunning := false, false;
      photoCount, recordingFlag := 0, false;
      recording, paused, streamOpen, outputOpen := false, false, false, false;
      lastRecordingFlag, h264Path := false, "";
      recorded, this.fwriteResults, sent, ops := [], fwriteResults, [], [];
      nalBuffer, nalSize, nalCapacity := null, 0, 0;
      received, units := [], [];
    }

    /** DjiTest_RaspberryPiCameraInit: the accumulator gets VIDEO_BUFFER_SIZE
        bytes; a failed allocation or mutex creation is a system error. A
        failed camera-task creation still returns success, but the camera is
        then not marked initialised. */
    method Init(mallocOk: bool, mutexOk: bool, taskOk: bool) returns (rc: ReturnCode)
      requires Valid() && nalSize == 0
      modifies this`photoCount, this`recordingFlag, this`nalCapacity, this`nalBuffer, this`nalSize,
               this`received, this`units, this`taskRunning, this`initialized
      ensures Valid()
      ensures rc == if mallocOk && mutexOk then Success else SystemError
      ensures nalCapacity == VIDEO_BUFFER_SIZE && (mallocOk <==> nalBuffer != null)
      ensures mallocOk ==> fresh(nalBuffer) && Buffered() == []
      ensures photoCount == 0 && !recordingFlag
      ensures taskRunning == ((mallocOk && mutexOk) || old(taskRunning))
      ensures initialized == ((mallocOk && mutexOk && taskOk) || old(initialized))
    {
      photoCount := 0;
      recordingFlag := false;
      AllocateBuffer(mallocOk);
      var created := mallocOk && mutexOk;
      rc := if created then Success else SystemError;
      taskRunning := taskRunning || created;
      // A failed task creation is logged and still reported as success.
      initialized := initialized || (created && taskOk);
    }

    /** The accumulator's initial allocation, which may fail. */
    method AllocateBuffer(mallocOk: bool)
      requires Valid() && nalSize == 0
      modifies this`nalCapacity, this`nalBuffer, this`nalSize, this`received, this`units
      ensures Valid() && nalCapacity == VIDEO_BUFFER_SIZE && (mallocOk <==> nalBuffer != null)
      ensures mallocOk ==> fresh(nalBuffer) && Buffered() == []
    {
      nalCapacity := VIDEO_BUFFER_SIZE;
      received, units := [], [];
      FrameSpec([]);
      if !mallocOk {
        nalBuffer := null;
        return;
      }
      nalBuffer := new byte[nalCapacity];
      nalSize := 0;
    }

    // ---- Requests ------------------------------------------------------------

    /** DjiTest_RaspberryPiCameraTakePhoto: one more pending photo. */
    method TakePhoto()
      modifies this`photoCount
      ensures Model() == RequestPhoto(old(Model()))
    {
      if !initialized {
        return;
      }
      photoCount := photoCount + 1;
    }

    /** DjiTest_RaspberryPiRecordingAction: the requested recording state. */
    method RecordingAction(action: bool)
      modifies this`recordingFlag
      ensures Model() == SetRecordingIntent(old(Model()), action)
    {
      if !initialized {
        return;
      }
      recordingFlag := action;
    }

    // ---- The camera task -----------------------------------------------------

    /** DjiTest_PauseStreaming: set the pause flag and close the pipe. */
    method PauseStreaming()
      modifies this`paused, this`streamOpen, this`ops
      ensures Model() == Pause(old(Model()))
    {
      paused := true;
      var closing: seq<Op> := if streamOpen then [PipeClose] else [];
      ops := ops + closing;
      streamOpen := false;
    }

    /** DjiTest_ResumeStreaming: reopen the pipe; the pause flag is cleared
        only when that succeeds. */
    method ResumeStreaming(reopenOk: bool)
      modifies this`paused, this`streamOpen, this`ops
      ensures Model() == Resume(old(Model()), reopenOk)
    {
      ops := ops + [PipeOpen];
      streamOpen := reopenOk;
      paused := paused && !reopenOk;
    }

    /** DjiTest_CameraTakePhotoImpl: the still-capture command. */
    method CapturePhotoCommand(path: string)
      modifies this`ops
      ensures Model() == CapturePhoto(old(Model()), path)
    {
      ops := ops + [PhotoCommand(path)];
    }

    /** The decrement after a photo, which never goes below zero. */
    method ConsumePhotoRequest()
      modifies this`photoCount
      ensures Model() == ConsumeRequest(old(Model()))
    {
      if photoCount > 0 {
        photoCount := photoCount - 1;
      }
    }

    /** The photo branch of the camera task. */
    method PhotoStep(e: CaptureEnv)
      modifies this`photoCount, this`paused, this`streamOpen, this`ops
      ensures Model() == PhotoCycle(old(Model()), e)
    {
      PauseStreaming();
      CapturePhotoCommand(e.photoPath);
      ResumeStreaming(e.reopenOk);
      ConsumePhotoRequest();
    }

    /** The start branch of the recording controller: open the `.h264` file
        for writing, which empties it; recording is set before the open and
        cleared again when the open fails. */
    method StartRecordingStep(path: string, openOk: bool)
      modifies this`recording, this`h264Path, this`outputOpen, this`recorded, this`ops
      ensures Model() == StartRecording(old(Model()), path, openOk)
    {
      h264Path := path;
      ops := ops + [FileOpen(h264Path)];
      outputOpen := openOk;
      recorded := if openOk then [] else recorded;
      recording := openOk;
    }

    /** The stop branch of the recording controller: close the file, convert
        it to `.mp4`, and remove it only when the conversion succeeded. */
    method StopRecordingStep(convertOk: bool)
      modifies this`recording, this`outputOpen, this`h264Path, this`ops
      ensures Model() == StopRecording(old(Model()), convertOk)
    {
      var calls: seq<Op> := [];
      var path := h264Path;
      if outputOpen {
        calls := [FileClose];
        if |h264Path| > 0 {
          var mp4 := Mp4Path(h264Path);
          if mp4.Some? {
            calls := calls + [ConvertCommand(h264Path, mp4.value)];
            if convertOk {
              calls := calls + [FileRemove(h264Path)];
            }
          }
          assert calls == [FileClose] + ConversionOps(h264Path, convertOk);
          path := "";
        }
      }
      recording := false;
      outputOpen := false;
      h264Path := path;
      ops := ops + calls;
      assert calls == [] ==> ops == old(ops);
    }

    /** The recording controller: act on a change of the recording intent
        since the last iteration, then remember it. */
    method RecordingControlStep(intent: bool, e: CaptureEnv)
      modifies this`recording, this`outputOpen, this`lastRecordingFlag, this`h264Path,
               this`recorded, this`ops
      ensures Model() == RecordingControl(old(Model()), intent, e)
    {
      if lastRecordingFlag != intent {
        if intent {
          StartRecordingStep(e.videoPath, e.openOk);
        } else {
          StopRecordingStep(e.convertOk);
        }
        lastRecordingFlag := intent;
      }
    }

    /** One iteration of DjiTest_RaspberryPiCameraTask's loop: both flags are
        read first, then the photo branch and the recording controller run. */
    method CameraTaskIteration(e: CaptureEnv)
      modifies this`photoCount, this`recording, this`paused, this`streamOpen, this`outputOpen,
               this`lastRecordingFlag, this`h264Path, this`recorded, this`ops
      ensures Model() == CaptureIteration(old(Model()), e)
    {
      var localPhotoFlag := photoCount > 0;
      var localRecordingFlag := recordingFlag;
      if localPhotoFlag {
        PhotoStep(e);
      }
      RecordingControlStep(localRecordingFlag, e);
    }

    /** The camera task: it first creates the stream controller task and
        returns when that fails (`streamTaskOk` is the outcome); otherwise it
        runs its loop over a run of iterations while the task flag is set. */
    method CameraTask(streamTaskOk: bool, es: seq<CaptureEnv>)
      modifies this`photoCount, this`recording, this`paused, this`streamOpen, this`outputOpen,
               this`lastRecordingFlag, this`h264Path, this`recorded, this`ops
      ensures Model() == if streamTaskOk && taskRunning then RunCapture(old(Model()), es) else old(Model())
    {
      if !streamTaskOk {
        return;
      }
      var i := 0;
      while taskRunning && i < |es|
        invariant 0 <= i <= |es| && (!taskRunning ==> i == 0)
        invariant Model() == RunCapture(old(Model()), es[..i])
      {
        CameraTaskIteration(es[i]);
        assert es[..i + 1][..i] == es[..i];
        i := i + 1;
      }
      assert taskRunning ==> es[..i] == es;
    }

    // ---- The stream task -------------------------------------------------------

    /** The stream task opens the encoder pipe when it starts. */
    method StartStreamTask(popenOk: bool)
      modifies this`streamOpen, this`ops
      ensures Model() == OpenStream(old(Model()), popenOk)
    {
      ops := ops + [PipeOpen];
      streamOpen := popenOk;
    }

    /** One iteration of DjiTest_H264StreamControlTask's loop: nothing is read
        while paused, or when the pipe is closed or at end of file; a read of
        `n > 0` bytes goes to the accumulator. */
    method StreamTaskIteration(chunk: array<byte>, n: nat, eof: bool, reallocOk: bool)
      requires Valid() && nalBuffer != null
      requires chunk.Length == VIDEO_BUFFER_SIZE && n <= chunk.Length && chunk != nalBuffer
      modifies this`nalBuffer, this`nalSize, this`nalCapacity, this`received, this`units,
               this`recorded, this`fwriteResults, this`sent, nalBuffer
      ensures Valid() && nalBuffer != null && |old(units)| <= |units|
      ensures paused || !streamOpen || eof || n == 0 ==>
        && Model() == old(Model()) && Buffered() == old(Buffered())
        && received == old(received) && units == old(units)
      ensures nalCapacity ==
        if paused || !streamOpen || eof || n == 0
           || !(old(nalCapacity) < old(nalSize) + n) || !reallocOk
        then old(nalCapacity) else 2 * (old(nalSize) + n)
      ensures !(paused || !streamOpen || eof || n == 0) ==>
        var failed := old(nalCapacity) < old(nalSize) + n && !reallocOk;
        && received == (if failed then old(received) else old(received) + chunk[..n])
        && units == old(units) + (if failed then [] else Frame(old(Buffered()) + chunk[..n]).units)
        && Model() == DeliverAll(old(Model()), units[|old(units)|..])
    {
      if paused {
        return;
      }
      if streamOpen && !eof {
        if n > 0 {
          ProcessRawH264WithBuffer(chunk, n, reallocOk);
          if old(nalCapacity) < old(nalSize) + n && !reallocOk {
            assert units[|old(units)|..] == [];
          } else {
            assert units[|old(units)|..] == Frame(old(Buffered()) + chunk[..n]).units;
          }
        }
      }
    }

    // ---- The accumulator ---------------------------------------------------------

    /** DjiTest_ProcessRawH264WithBuffer: append a chunk (growing to twice the
        required size when it does not fit), hand on the complete units, and
        move the unconsumed tail to the front. A missing or empty chunk, or a
        failed reallocation, changes nothing. */
    method ProcessRawH264WithBuffer(chunk: array?<byte>, length: nat, reallocOk: bool)
      requires Valid() && nalBuffer != null
      requires chunk != null ==> length <= chunk.Length && chunk != nalBuffer
      modifies this`nalBuffer, this`nalSize, this`nalCapacity, this`received, this`units,
               this`recorded, this`fwriteResults, this`sent, nalBuffer
      ensures Valid() && nalBuffer != null
      ensures var grow := old(nalCapacity) < old(nalSize) + length;
        if chunk == null || length == 0 || (grow && !reallocOk) then
          && Buffered() == old(Buffered()) && nalCapacity == old(nalCapacity)
          && Model() == old(Model()) && units == old(units) && received == old(received)
        else
          var all := old(Buffered()) + chunk[..length];
          && received == old(received) + chunk[..length]
          && units == old(units) + Frame(all).units
          && Buffered() == all[Frame(all).consumed..]
          && nalCapacity == (if grow then 2 * (old(nalSize) + length) else old(nalCapacity))
          && Model() == DeliverAll(old(Model()), Frame(all).units)
    {
      if chunk == null || length == 0 {
        return;
      }
      var requiredCapacity := nalSize + length;
      if nalCapacity < requiredCapacity {
        var newCapacity := requiredCapacity * 2;
        if !reallocOk {
          return;
        }
        Grow(newCapacity);
      }
      Absorb(chunk, length);
    }

    /** The part of DjiTest_ProcessRawH264WithBuffer after the capacity check:
        append, frame, and keep the unconsumed tail. */
    method Absorb(chunk: array<byte>, length: nat)
      requires Valid() && nalBuffer != null && nalSize + length <= nalCapacity
      requires length <= chunk.Length && chunk != nalBuffer
      modifies this`nalSize, this`received, this`units,
               this`recorded, this`fwriteResults, this`sent, nalBuffer
      ensures Valid()
      ensures var all := old(Buffered()) + chunk[..length];
        && received == old(received) + chunk[..length]
        && units == old(units) + Frame(all).units
        && Buffered() == all[Frame(all).consumed..]
        && Model() == DeliverAll(old(Model()), Frame(all).units)
    {
      ghost var prev := Buffered();
      ghost var piece := chunk[..length];
      ghost var all := prev + piece;
      AccumulatorTracksStream(received, units, prev, piece);
      FrameChunk(chunk, length);
      received := received + piece;
      units := units + Frame(all).units;
    }

    /** Append the chunk, deliver the complete units of the buffered bytes
        and keep what follows them. */
    method FrameChunk(chunk: array<byte>, length: nat)
      requires nalBuffer != null && nalSize + length <= nalBuffer.Length
      requires length <= chunk.Length && chunk != nalBuffer
      modifies this`nalSize, this`recorded, this`fwriteResults, this`sent, nalBuffer
      ensures nalSize <= old(nalSize) + length
      ensures var all := old(Buffered()) + chunk[..length];
        && Buffered() == all[Frame(all).consumed..]
        && Model() == DeliverAll(old(Model()), Frame(all).units)
    {
      AppendBytes(chunk, length);
      var processedBytes := ProcessCompleteNalUnits(nalBuffer, nalSize);
      KeepTail(processedBytes);
    }

    /** The realloc: a larger buffer holding the old block's bytes. */
    method Grow(newCapacity: nat)
      requires nalBuffer != null && nalBuffer.Length == nalCapacity <= newCapacity
      requires nalSize <= nalCapacity
      modifies this`nalBuffer, this`nalCapacity
      ensures nalBuffer != null && fresh(nalBuffer)
      ensures nalBuffer.Length == nalCapacity == newCapacity
      ensures nalBuffer[..old(nalCapacity)] == old(nalBuffer[..])
      ensures nalBuffer[..nalSize] == old(nalBuffer[..nalSize])
    {
      var newBuffer := new byte[newCapacity];
      forall i | 0 <= i < nalBuffer.Length {
        newBuffer[i] := nalBuffer[i];
      }
      assert newBuffer[..nalSize] == nalBuffer[..nalSize];
      nalBuffer := newBuffer;
      nalCapacity := newCapacity;
    }

    /** The memcpy of a chunk behind the buffered bytes. */
    method AppendBytes(chunk: array<byte>, length: nat)
      requires nalBuffer != null && nalSize + length <= nalBuffer.Length
      requires length <= chunk.Length && chunk != nalBuffer
      modifies nalBuffer, this`nalSize
      ensures nalSize == old(nalSize) + length
      ensures nalBuffer[..nalSize] == old(nalBuffer[..nalSize]) + chunk[..length]
    {
      forall i | 0 <= i < length {
        nalBuffer[nalSize + i] := chunk[i];
      }
      nalSize := nalSize + length;
    }

    /** The end of DjiTest_ProcessRawH264WithBuffer: the memmove of the bytes
        from `k` on to offset 0, or an empty buffer when all were consumed. */
    method KeepTail(k: nat)
      requires nalBuffer != null && k <= nalSize <= nalBuffer.Length
      modifies nalBuffer, this`nalSize
      ensures nalSize == old(nalSize) - k
      ensures nalBuffer[..nalSize] == old(nalBuffer[..nalSize])[k..]
    {
      if k < nalSize {
        ghost var before := nalBuffer[..nalSize];
        var n := nalSize - k;
        var i := 0;
        while i < n
          invariant 0 <= i <= n && nalSize == |before|
          invariant forall j :: 0 <= j < i ==> nalBuffer[j] == before[k + j]
          invariant forall j :: i <= j < |before| ==> nalBuffer[j] == before[j]
        {
          nalBuffer[i] := nalBuffer[k + i];
          i := i + 1;
        }
        nalSize := n;
        assert nalBuffer[..nalSize] == before[k..];
      } else {
        nalSize := 0;
      }
    }

    // ---- The framer ------------------------------------------------------------------

    /** DjiTest_ProcessCompleteNALUnits: hand every complete unit of
        `data[..length]` to the per-unit pipeline, in order, and return how
        many leading bytes were consumed. */
    method ProcessCompleteNalUnits(data: array?<byte>, length: nat) returns (processedBytes: nat)
      requires data != null ==> length <= data.Length
      modifies this`recorded, this`fwriteResults, this`sent
      ensures data == null ==> processedBytes == 0 && Model() == old(Model())
      ensures data != null ==>
        && processedBytes == Frame(data[..length]).consumed
        && Model() == DeliverAll(old(Model()), Frame(data[..length]).units)
    {
      if data == null {
        return 0;
      }
      ghost var s := data[..length];
      if length < 4 {
        assert Frame(s) == Framed([], 0);
        return 0;
      }
      ghost var emitted: seq<seq<byte>> := [];
      var currentPos: nat := 0;
      var remaining: nat := length;
      processedBytes := 0;

      while remaining >= 4
        invariant |s| == length && s == data[..length]
        invariant currentPos + remaining == length && processedBytes == currentPos
        invariant Frame(s) == Framed(emitted + FrameFrom(s, currentPos).units,
                                     FrameFrom(s, currentPos).consumed)
        invariant Model() == DeliverAll(old(Model()), emitted)
        decreases remaining
      {
        FrameFromStep(s, currentPos);
        if data[currentPos] == 0 && data[currentPos + 1] == 0
           && data[currentPos + 2] == 0 && data[currentPos + 3] == 1 {
          assert StartCodeAt(s, currentPos);
          var nalStart := currentPos;
          var found, nextStart := FindNextStartCode(data, length, currentPos);
          if found {
            assert StartCodeAt(s, nextStart);
            var nalSize := nextStart - nalStart;
            ghost var unit := s[nalStart..nextStart];
            SliceOfPrefix(data[..], length, nalStart, nextStart);
            ProcessSingleNalUnit(data, nalStart, nalSize);
            DeliverAllSnoc(old(Model()), emitted, unit);
            AppendAssoc(emitted, [unit], FrameFrom(s, nextStart).units);
            emitted := emitted + [unit];
            processedBytes := nextStart;
            currentPos := nextStart;
            remaining := length - processedBytes;
          } else {
            assert emitted + [] == emitted;
            break;
          }
        } else {
          assert !StartCodeAt(s, currentPos);
          currentPos := currentPos + 1;
          remaining := remaining - 1;
          processedBytes := processedBytes + 1;
        }
      }
      if remaining < 4 {
        FrameFromStep(s, currentPos);
        assert emitted + [] == emitted;
      }
    }

    /** The inner search of DjiTest_ProcessCompleteNALUnits: the next start
        code at least four bytes past the one at `pos`. */
    method FindNextStartCode(data: array<byte>, length: nat, pos: nat) returns (found: bool, nextStart: nat)
      requires pos + 4 <= length <= data.Length
      ensures var r := FirstStartFrom(data[..length], pos + 4);
        found == r.Some? && (found ==> nextStart == r.value)
    {
      ghost var s := data[..length];
      var remaining := length - pos;
      found, nextStart := false, 0;
      var i := 4;
      while i < remaining - 3
        invariant 4 <= i && (i <= remaining - 3 || i == 4)
        invariant FirstStartFrom(s, pos + 4) == FirstStartFrom(s, pos + i)
      {
        if data[pos + i] == 0 && data[pos + i + 1] == 0
           && data[pos + i + 2] == 0 && data[pos + i + 3] == 1 {
          assert StartCodeAt(s, pos + i);
          found := true;
          nextStart := pos + i;
          return;
        }
        assert !StartCodeAt(s, pos + i);
        i := i + 1;
      }
    }

    // ---- The per-unit pipeline ----------------------------------------------------

    /** DjiTest_ProcessSingleNALUnit: the unit followed by the AUD trailer is
        written to the recording file when recording, and sent either way. */
    method ProcessSingleNalUnit(data: array<byte>, start: nat, len: nat)
      requires start + len <= data.Length
      modifies this`recorded, this`fwriteResults, this`sent
      ensures Model() == Deliver(old(Model()), data[start..start + len])
    {
      if len == 0 {
        return;
      }
      var frameWithAud := BuildFrame(data, start, len);
      var localRecording := recording;
      if localRecording && outputOpen && frameWithAud.Length > 0 {
        WriteFrame(frameWithAud);
      }
      SendFrame(frameWithAud);
    }

    /** The two memcpy calls into a fresh frame buffer: the unit, then the
        AUD trailer. */
    static method BuildFrame(data: array<byte>, start: nat, len: nat) returns (frame: array<byte>)
      requires start + len <= data.Length
      ensures fresh(frame) && frame[..] == Annotate(data[start..start + len])
    {
      frame := new byte[len + |AUD_TRAILER|];
      forall i | 0 <= i < len {
        frame[i] := data[start + i];
      }
      forall i | 0 <= i < |AUD_TRAILER| {
        frame[len + i] := AUD_TRAILER[i];
      }
      assert frame[..] == data[start..start + len] + AUD_TRAILER;
    }

    /** One fwrite call: it accepts the next scripted count, at most `count`;
        0, or an exhausted script, reports an error. */
    method FileWrite(frame: array<byte>, offset: nat, count: nat) returns (written: nat)
      requires offset + count <= frame.Length
      modifies this`recorded, this`fwriteResults
      ensures var s := old(fwriteResults);
        && written == (if s == [] then 0 else if s[0] < count then s[0] else count)
        && fwriteResults == (if s == [] then [] else s[1..])
        && recorded == old(recorded) + frame[offset..offset + written]
    {
      if fwriteResults == [] {
        written := 0;
        assert recorded == old(recorded) + frame[offset..offset];
        return;
      }
      written := if fwriteResults[0] < count then fwriteResults[0] else count;
      fwriteResults := fwriteResults[1..];
      recorded := recorded + frame[offset..offset + written];
    }

    /** The recording branch of DjiTest_ProcessSingleNALUnit: the retry
        loop, then the flush. */
    method WriteFrame(frame: array<byte>)
      modifies this`recorded, this`fwriteResults
      ensures Model() == WriteToFile(old(Model()), frame[..])
    {
      var written := WriteAll(frame);
    }

    /** The fwrite retry loop: write until the whole frame is in the file or
        a call reports an error; the result is the number of bytes written. */
    method WriteAll(frame: array<byte>) returns (totalWritten: nat)
      modifies this`recorded, this`fwriteResults
      ensures var d := Drain(old(fwriteResults), frame.Length);
        && totalWritten == d.0
        && recorded == old(recorded) + frame[..d.0] && fwriteResults == d.1
    {
      var totalFrameSize := frame.Length;
      totalWritten := 0;
      while totalWritten < totalFrameSize
        invariant totalWritten <= totalFrameSize
        invariant recorded == old(recorded) + frame[..totalWritten]
        invariant Drain(old(fwriteResults), totalFrameSize)
               == (totalWritten + Drain(fwriteResults, totalFrameSize - totalWritten).0,
                   Drain(fwriteResults, totalFrameSize - totalWritten).1)
        decreases |fwriteResults|
      {
        ghost var script := fwriteResults;
        var fw := FileWrite(frame, totalWritten, totalFrameSize - totalWritten);
        if fw > 0 {
          assert frame[..totalWritten + fw] == frame[..totalWritten] + frame[totalWritten..totalWritten + fw];
          totalWritten := totalWritten + fw;
          continue;
        }
        // fwrite reported an error: this frame's write is abandoned.
        assert Drain(script, totalFrameSize - totalWritten) == (0, fwriteResults);
        break;
      }
    }

    /** The transport call: one buffer appended to the send log. Its status
        code is only logged by the caller. */
    method SendVideoStream(frame: array<byte>, offset: nat, count: nat)
      requires offset + count <= frame.Length
      modifies this`sent
      ensures sent == old(sent) + [frame[offset..offset + count]]
    {
      sent := sent + [frame[offset..offset + count]];
    }

    /** Frames over MAX_UNFRAGMENTED bytes go out as fragments, smaller
        frames in one call. */
    method SendFrame(frame: array<byte>)
      modifies this`sent
      ensures Model() == Transmit(old(Model()), frame[..])
    {
      var totalFrameSize := frame.Length;
      if totalFrameSize > MAX_UNFRAGMENTED {
        SendFragments(frame);
      } else {
        assert frame[0..totalFrameSize] == frame[..];
        SendVideoStream(frame, 0, totalFrameSize);
      }
    }

    /** The fragmenting loop: slices of at most FRAGMENT_SIZE bytes in offset
        order, each sent whatever became of the last. */
    method SendFragments(frame: array<byte>)
      modifies this`sent
      ensures sent == old(sent) + Chunks(frame[..])
    {
      var totalFrameSize := frame.Length;
      var offset := 0;
      while offset < totalFrameSize
        invariant offset <= totalFrameSize
        invariant sent + Chunks(frame[offset..]) == old(sent) + Chunks(frame[..])
      {
        var sendLength := if totalFrameSize - offset > FRAGMENT_SIZE then FRAGMENT_SIZE
                          else totalFrameSize - offset;
        ChunksFrom(frame[..], offset);
        SendVideoStream(frame, offset, sendLength);
        offset := offset + sendLength;
      }
      assert frame[offset..] == [];
    }
  }
}
