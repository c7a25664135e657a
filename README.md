# Raspberry Pi camera emulation and PPS bookkeeping, in Dafny

This project models two parts of the Payload SDK sample application for the
Raspberry Pi:

* **The camera emulation**
  (`samples/sample_c/module_sample/camera_emu/test_raspberry_pi_camera.c`).
  The stream task reads the H.264 Annex B byte stream of `libcamera-vid`.
  Each chunk goes into a growable accumulator; its initial capacity is
  `VIDEO_BUFFER_SIZE` (4096) and it grows to twice the required size.
  The framer cuts complete NAL units out of the accumulator at the 4-byte
  start code `00 00 00 01`. Each unit gets the 6-byte access-unit delimiter
  `00 00 00 01 09 10` appended. While recording, the frame is written to the
  `.h264` file with the fwrite retry loop. It is then handed to the video
  transport, in 6000-byte fragments when it is over 60000 bytes. The camera
  task serves photo requests: it pauses the stream, runs the still capture,
  resumes, and consumes one request. It also opens the recording file when
  the recording intent turns on. When the intent turns off it closes the
  file, converts it to `.mp4`, and removes the `.h264` file only after a
  successful conversion.
* **The PPS trigger-time bookkeeping**
  (`samples/sample_c/platform/linux/raspberry_pi/application/pps.c`). It keeps
  the newest trigger time and the interval to the trigger before, both as
  `uint32` milliseconds with wrap-around subtraction. An edge read less than
  800 ms after the newest trigger is ignored. The query reports the newest
  trigger in microseconds, computed in `uint64`, with its error codes.

Both files work by mutating module-level state, so each becomes a class:

* `Camera.RaspberryPiCamera` holds the accumulator in an `array` and the
  control flags as fields.
* `Pps.PpsMonitor` holds the two timestamps.

Each method is proved against a pure step function on a value of the state:
`CameraSpec.CameraState` or `Pps.PpsState`. `Framing.Frame` specifies what
the framer emits and consumes. `Delivery` specifies the annotation, the
fragmentation and the retry loop. The properties are proved as lemmas about
these functions. The method contracts connect the imperative code to the
functions:

* `ProcessCompleteNalUnits` emits exactly `Frame(data[..length]).units` and
  returns `Frame(data[..length]).consumed`.
* The accumulator keeps the invariant `Valid()`: the units emitted so far are
  those of framing everything ever received, and the buffer holds what that
  framing left unconsumed. By `Framing.FrameStreaming`, chunking the stream
  therefore makes no difference.

External processes, files, the transport and the clock are not executed.
Their outcomes are parameters:

* `mallocOk`, `reopenOk` and `convertOk` for allocation, pipe and conversion
  results;
* a script of per-call fwrite acceptances (`fwriteResults`);
* the clock readings of each PPS edge.

Their effects are recorded in the state:

* the recording file's contents;
* the log of every buffer sent;
* the sequence of external calls (`Op`): pipe open and close, photo
  command, file open, close and remove, conversion.

Two places where the code differs from a plain reading of its purpose; both
are modelled as the code behaves (the one place where the model follows the
corrected code instead is the PPS log line, under "## Findings"):

* The framer's units include their leading start code. For the stream
  `00 00 00 01 AA BB 00 00 00 01 CC`, the unit handed on is
  `00 00 00 01 AA BB`, not `AA BB` (`Framing.WorkedExample`).
* `DjiTest_RaspberryPiCameraInit` returns success when the camera task
  cannot be created, but leaves the camera uninitialised, so later photo and
  recording requests are ignored (`Camera.RaspberryPiCamera.Init`).

## Model

| member | source | states |
|---|---|---|
| `Framing.FirstStartFrom` | samples/sample_c/module_sample/camera_emu/test_raspberry_pi_camera.c:351-358 | the inner search finds the first start code at or after the offset that lies wholly in the data, and none before it; none means none exists |
| `Framing.FrameFrom` | samples/sample_c/module_sample/camera_emu/test_raspberry_pi_camera.c:343-376 | framing from an offset never consumes fewer bytes than the offset or more than the data holds |
| `Framing.FrameFromStep` | samples/sample_c/module_sample/camera_emu/test_raspberry_pi_camera.c:343-374 | one turn of the scan: fewer than 4 bytes stop it; a non-start byte is skipped; a start code without a later one stops it; otherwise the unit up to the next start code is emitted and the scan continues there |
| `Framing.FrameSpec` | samples/sample_c/module_sample/camera_emu/test_raspberry_pi_camera.c:335-377 | under 4 bytes nothing is emitted or consumed; the consumed count is within the data; the units appear contiguously right before the consumed point and only non-start bytes precede them; every unit begins with the only start code it contains; what is left is under 4 bytes or a start code with no later start code; a non-empty emission ends at a start code; with no start code anywhere nothing is emitted and all but the last 3 bytes are consumed |
| `Framing.FrameStreaming` | samples/sample_c/module_sample/camera_emu/test_raspberry_pi_camera.c:462-472 | framing a stream in two pieces, with the first piece's unconsumed rest carried over, emits and consumes exactly what framing it whole does |
| `Framing.AccumulatorTracksStream` | samples/sample_c/module_sample/camera_emu/test_raspberry_pi_camera.c:462-472 | if the emitted units are the framing of everything received and the buffer holds the unconsumed rest, appending a chunk and framing the buffer keeps both facts for the longer stream |
| `Framing.LeadingJunkDiscarded` | samples/sample_c/module_sample/camera_emu/test_raspberry_pi_camera.c:369-373 | bytes at which no start code begins are counted as consumed but contribute to no unit |
| `Framing.UnitThenStartCode` | samples/sample_c/module_sample/camera_emu/test_raspberry_pi_camera.c:345-365 | a well-formed unit followed by a start code is emitted unchanged and the scan resumes at that start code |
| `Framing.WorkedExample` | samples/sample_c/module_sample/camera_emu/test_raspberry_pi_camera.c:335-377 | `00 00 00 01 AA BB` alone emits nothing and consumes nothing; with `00 00 00 01 CC` appended it emits the 6-byte unit and consumes 6 bytes |
| `Delivery.ChunksFrom` | samples/sample_c/module_sample/camera_emu/test_raspberry_pi_camera.c:418-430 | the fragments from an offset are one fragment of min(6000, rest) bytes followed by the fragments after it |
| `Delivery.ChunksReassemble` | samples/sample_c/module_sample/camera_emu/test_raspberry_pi_camera.c:416-431 | the fragments put back together are the frame |
| `Delivery.ChunksSized` | samples/sample_c/module_sample/camera_emu/test_raspberry_pi_camera.c:417-431 | every fragment is non-empty and at most 6000 bytes, and there are ceil(n / 6000) of them |
| `Delivery.FragmentsOfFrame` | samples/sample_c/module_sample/camera_emu/test_raspberry_pi_camera.c:416-441 | the buffers sent for a frame reassemble to it; up to 60000 bytes it goes out in one send, above that in ceil(n / 6000) fragments of 1 to 6000 bytes |
| `Delivery.Drain` | samples/sample_c/module_sample/camera_emu/test_raspberry_pi_camera.c:400-412 | the retry loop never counts more bytes written than the frame holds |
| `Delivery.DrainWritesAccepted` | samples/sample_c/module_sample/camera_emu/test_raspberry_pi_camera.c:400-412 | the retry loop writes everything the file accepts before its first error, up to the whole frame |
| `RecordPath.LastDot` | samples/sample_c/module_sample/camera_emu/test_raspberry_pi_camera.c:221 | the offset found holds a '.' and no later offset does; none means the path has no '.' |
| `RecordPath.Mp4PathExactlyForH264` | samples/sample_c/module_sample/camera_emu/test_raspberry_pi_camera.c:218-223 | a conversion target exists exactly when the path ends in `.h264` |
| `RecordPath.Mp4PathRewrite` | samples/sample_c/module_sample/camera_emu/test_raspberry_pi_camera.c:220-223 | `base.h264` converts to `base.mp4` |
| `RecordPath.Mp4PathInverse` | samples/sample_c/module_sample/camera_emu/test_raspberry_pi_camera.c:220-223 | the target ends in `.mp4`, and replacing that ending with `.h264` gives back the recording path |
| `CameraSpec.InitialInv` | samples/sample_c/module_sample/camera_emu/test_raspberry_pi_camera.c:63-76 | the zeroed statics satisfy the camera invariant |
| `CameraSpec.PhotoCycleEffect` | samples/sample_c/module_sample/camera_emu/test_raspberry_pi_camera.c:174-195 | the photo branch closes the pipe if it is open, runs the capture, reopens the pipe, and consumes one request without going below zero; the stream ends up open and unpaused exactly when reopening succeeded; nothing else changes |
| `CameraSpec.CaptureIterationOps` | samples/sample_c/module_sample/camera_emu/test_raspberry_pi_camera.c:167-249 | one camera-task iteration makes the photo branch's calls, then the recording branch's calls, on top of the earlier ones |
| `CameraSpec.CaptureIterationKeepsInv` | samples/sample_c/module_sample/camera_emu/test_raspberry_pi_camera.c:167-249 | an iteration keeps the invariant: no negative photo count, file open exactly while recording and only under a recording intent, never open and paused at once |
| `CameraSpec.RunCaptureKeepsInv` | samples/sample_c/module_sample/camera_emu/test_raspberry_pi_camera.c:167-249 | any number of iterations keeps the invariant |
| `CameraSpec.OtherOperationsKeepInv` | samples/sample_c/module_sample/camera_emu/test_raspberry_pi_camera.c:112-132 | photo and recording requests keep the invariant; so does opening the stream while unpaused, and so does delivering any units |
| `CameraSpec.PhotoIterationConsumesOneRequest` | samples/sample_c/module_sample/camera_emu/test_raspberry_pi_camera.c:170-195 | with a pending request an iteration takes one photo, consumes exactly one request and leaves the stream open exactly when reopening succeeded; without one, it takes no photo and keeps the count |
| `CameraSpec.NoRecordingChangeWithoutNewIntent` | samples/sample_c/module_sample/camera_emu/test_raspberry_pi_camera.c:197-247 | with no pending photo and the intent equal to the last one seen, an iteration changes nothing |
| `CameraSpec.RemoveFollowsConvert` | samples/sample_c/module_sample/camera_emu/test_raspberry_pi_camera.c:214-241 | in the recording branch's calls a removal comes only right after the conversion of that file to its `.mp4` name, and only when conversion succeeds |
| `CameraSpec.GuardedAfter` | samples/sample_c/module_sample/camera_emu/test_raspberry_pi_camera.c:229-237 | a removal that follows its conversion still does so behind any earlier calls |
| `CameraSpec.GuardedBehind` | samples/sample_c/module_sample/camera_emu/test_raspberry_pi_camera.c:174-237 | the photo branch's calls remove nothing, so removals after them stay guarded and the earlier calls stay untouched |
| `CameraSpec.RemoveOnlyAfterConversion` | samples/sample_c/module_sample/camera_emu/test_raspberry_pi_camera.c:229-237 | an iteration only appends calls, and every `.h264` removal is immediately preceded by a conversion of that same file that returned 0 |
| `CameraSpec.RecordingCycle` | samples/sample_c/module_sample/camera_emu/test_raspberry_pi_camera.c:197-247 | turning recording on with a successful open, then off, opens an empty `base.h264`, then closes it, converts it to `base.mp4` once and removes it only after conversion succeeds; afterwards nothing is recording and the path is cleared |
| `CameraSpec.SameIntentKeepsRecording` | samples/sample_c/module_sample/camera_emu/test_raspberry_pi_camera.c:167-249 | with the intent equal to the last one seen, an iteration, with or without a photo, keeps the recording state, the file and its path, only appends calls, and opens no file |
| `CameraSpec.SameIntentRunsKeepRecording` | samples/sample_c/module_sample/camera_emu/test_raspberry_pi_camera.c:167-249 | the same for any run of iterations with an unchanged intent |
| `CameraSpec.FailedOpenNotRetried` | samples/sample_c/module_sample/camera_emu/test_raspberry_pi_camera.c:196-210 | a failed open, whether or not a photo is pending, makes that open as the iteration's last call, leaves nothing recording and marks the intent as seen; in every later run with the same intent, photos included, nothing is recording and no file is opened again |
| `CameraSpec.FailedOpenIdleAfterwards` | samples/sample_c/module_sample/camera_emu/test_raspberry_pi_camera.c:196-210 | with no pending photo, the failed open is the iteration's only call, and later iterations with the same intent change nothing |
| `CameraSpec.IdleRunsChangeNothing` | samples/sample_c/module_sample/camera_emu/test_raspberry_pi_camera.c:167-249 | with no pending photo and no change of intent, any number of iterations changes nothing |
| `CameraSpec.DeliverOnlyTouchesSinks` | samples/sample_c/module_sample/camera_emu/test_raspberry_pi_camera.c:379-444 | handling one unit changes only the recording file, its remaining write behaviour and the send log |
| `CameraSpec.DeliverAllOnlyTouchesSinks` | samples/sample_c/module_sample/camera_emu/test_raspberry_pi_camera.c:379-444 | handling any run of units changes only the recording file, its write behaviour and the send log |
| `CameraSpec.DeliverAllSendsFrames` | samples/sample_c/module_sample/camera_emu/test_raspberry_pi_camera.c:392-441 | whatever the transport returns, the buffers sent for non-empty units reassemble to the units, each followed by the access-unit delimiter, in order |
| `CameraSpec.DeliverAllRecordsNothingWhenOff` | samples/sample_c/module_sample/camera_emu/test_raspberry_pi_camera.c:396-399 | while not recording, or with no file open, no byte reaches the file |
| `CameraSpec.DeliverAllSnoc` | samples/sample_c/module_sample/camera_emu/test_raspberry_pi_camera.c:360-365 | handling one more unit after a run is handling the run, then that unit |
| `CameraSpec.DeliverWritesAcceptedPrefix` | samples/sample_c/module_sample/camera_emu/test_raspberry_pi_camera.c:384-441 | while recording, one unit appends to the file the longest prefix of unit + delimiter that the file accepts before an error, the whole frame when it accepts that much; the frame is sent either way |
| `Camera.RaspberryPiCamera.constructor` | samples/sample_c/module_sample/camera_emu/test_raspberry_pi_camera.c:63-76 | every static starts zero, false or null, and the accumulator invariant holds |
| `Camera.RaspberryPiCamera.Init` | samples/sample_c/module_sample/camera_emu/test_raspberry_pi_camera.c:79-110 | resets the photo count and recording intent and sets the capacity to 4096; returns a system error when allocation or the mutex fails and success otherwise, even when task creation fails; the task flag is set once the mutex exists, the initialised flag only once the task was created |
| `Camera.RaspberryPiCamera.AllocateBuffer` | samples/sample_c/module_sample/camera_emu/test_raspberry_pi_camera.c:85-91 | the capacity becomes 4096, and the buffer exists and is empty exactly when malloc succeeds |
| `Camera.RaspberryPiCamera.TakePhoto` | samples/sample_c/module_sample/camera_emu/test_raspberry_pi_camera.c:112-121 | adds one pending photo, or does nothing before initialisation |
| `Camera.RaspberryPiCamera.RecordingAction` | samples/sample_c/module_sample/camera_emu/test_raspberry_pi_camera.c:123-132 | sets the recording intent, or does nothing before initialisation |
| `Camera.RaspberryPiCamera.PauseStreaming` | samples/sample_c/module_sample/camera_emu/test_raspberry_pi_camera.c:270-278 | sets the pause flag and closes the pipe if it is open |
| `Camera.RaspberryPiCamera.ResumeStreaming` | samples/sample_c/module_sample/camera_emu/test_raspberry_pi_camera.c:280-290 | reopens the pipe and clears the pause flag only if that succeeds |
| `Camera.RaspberryPiCamera.CapturePhotoCommand` | samples/sample_c/module_sample/camera_emu/test_raspberry_pi_camera.c:475-487 | issues the still-capture command for the photo path |
| `Camera.RaspberryPiCamera.ConsumePhotoRequest` | samples/sample_c/module_sample/camera_emu/test_raspberry_pi_camera.c:189-193 | consumes one pending request, never going below zero |
| `Camera.RaspberryPiCamera.PhotoStep` | samples/sample_c/module_sample/camera_emu/test_raspberry_pi_camera.c:174-195 | the photo branch is the photo-cycle step function |
| `Camera.RaspberryPiCamera.StartRecordingStep` | samples/sample_c/module_sample/camera_emu/test_raspberry_pi_camera.c:198-210 | records the path and opens it; recording and the file are on exactly when the open succeeds, and a successful open starts an empty file |
| `Camera.RaspberryPiCamera.StopRecordingStep` | samples/sample_c/module_sample/camera_emu/test_raspberry_pi_camera.c:211-245 | stops recording; with a file open it closes it, and with a non-empty path it converts the file when the name ends in `.h264`, removes it only when the conversion succeeds, and clears the path |
| `Camera.RaspberryPiCamera.RecordingControlStep` | samples/sample_c/module_sample/camera_emu/test_raspberry_pi_camera.c:197-247 | acts only on a change of intent since the last iteration, then remembers the intent |
| `Camera.RaspberryPiCamera.CameraTaskIteration` | samples/sample_c/module_sample/camera_emu/test_raspberry_pi_camera.c:167-249 | reads both flags first, then runs the photo branch and the recording controller; the result is one capture iteration |
| `Camera.RaspberryPiCamera.CameraTask` | samples/sample_c/module_sample/camera_emu/test_raspberry_pi_camera.c:158-249 | when creating the stream controller task fails the camera task returns and nothing changes; otherwise, while the task flag is set, the loop runs one capture iteration per environment, in order, and with the flag clear nothing changes |
| `Camera.RaspberryPiCamera.StartStreamTask` | samples/sample_c/module_sample/camera_emu/test_raspberry_pi_camera.c:297-301 | the stream task opens the encoder pipe, which may fail |
| `Camera.RaspberryPiCamera.StreamTaskIteration` | samples/sample_c/module_sample/camera_emu/test_raspberry_pi_camera.c:305-320 | nothing happens while paused, with the pipe closed, at end of file or on an empty read: the state, the accumulator and its capacity are unchanged; otherwise the capacity becomes 2 * (buffered + read) exactly when the read does not fit and the realloc succeeds, and the read is appended to the received stream (unless the realloc fails, which changes nothing), the units handed on are exactly those framing buffer + read yields, and they are delivered; the accumulator invariant is kept |
| `Camera.RaspberryPiCamera.ProcessRawH264WithBuffer` | samples/sample_c/module_sample/camera_emu/test_raspberry_pi_camera.c:446-473 | a missing or empty chunk, or a failed realloc, changes nothing; otherwise the capacity doubles the required size when short, the units emitted are the framing of everything received, the buffer keeps the unconsumed rest, and exactly those new units are delivered |
| `Camera.RaspberryPiCamera.Absorb` | samples/sample_c/module_sample/camera_emu/test_raspberry_pi_camera.c:462-472 | with room for the chunk, appending, framing and keeping the tail extends the received stream and its units by what framing buffer + chunk yields, and keeps the invariant |
| `Camera.RaspberryPiCamera.FrameChunk` | samples/sample_c/module_sample/camera_emu/test_raspberry_pi_camera.c:462-472 | the buffer ends up holding (buffer + chunk) from its consumed point on, and the units of framing buffer + chunk are delivered |
| `Camera.RaspberryPiCamera.Grow` | samples/sample_c/module_sample/camera_emu/test_raspberry_pi_camera.c:452-459 | realloc gives a new buffer of the new capacity that starts with the old contents |
| `Camera.RaspberryPiCamera.AppendBytes` | samples/sample_c/module_sample/camera_emu/test_raspberry_pi_camera.c:462-463 | the buffered bytes become the old ones followed by the chunk |
| `Camera.RaspberryPiCamera.KeepTail` | samples/sample_c/module_sample/camera_emu/test_raspberry_pi_camera.c:467-472 | the buffered bytes become the old ones from the consumed count on |
| `Camera.RaspberryPiCamera.ProcessCompleteNalUnits` | samples/sample_c/module_sample/camera_emu/test_raspberry_pi_camera.c:335-377 | with a null pointer nothing happens and 0 is returned; otherwise exactly the units of `Frame(data[..length])` are delivered in order and its consumed count is returned |
| `Camera.RaspberryPiCamera.FindNextStartCode` | samples/sample_c/module_sample/camera_emu/test_raspberry_pi_camera.c:351-358 | finds a start code exactly when one begins at pos + 4 or later within the data, and then the first one |
| `Camera.RaspberryPiCamera.ProcessSingleNalUnit` | samples/sample_c/module_sample/camera_emu/test_raspberry_pi_camera.c:379-444 | an empty unit is ignored; otherwise unit + delimiter is written to the file while recording with a file open, then sent |
| `Camera.RaspberryPiCamera.BuildFrame` | samples/sample_c/module_sample/camera_emu/test_raspberry_pi_camera.c:384-393 | a new buffer holding the unit followed by the 6-byte access-unit delimiter |
| `Camera.RaspberryPiCamera.FileWrite` | samples/sample_c/module_sample/camera_emu/test_raspberry_pi_camera.c:402 | one fwrite accepts min(grant, count) bytes and appends them to the file |
| `Camera.RaspberryPiCamera.WriteFrame` | samples/sample_c/module_sample/camera_emu/test_raspberry_pi_camera.c:399-414 | the recording branch is the write-to-file step function on the frame |
| `Camera.RaspberryPiCamera.WriteAll` | samples/sample_c/module_sample/camera_emu/test_raspberry_pi_camera.c:400-412 | the retry loop writes exactly the part of the frame the fwrite results allow before the first error, and returns its length |
| `Camera.RaspberryPiCamera.SendVideoStream` | samples/sample_c/module_sample/camera_emu/test_raspberry_pi_camera.c:421-424 | one transport send logs the slice handed over |
| `Camera.RaspberryPiCamera.SendFrame` | samples/sample_c/module_sample/camera_emu/test_raspberry_pi_camera.c:416-441 | the frame is sent whole up to 60000 bytes, as fragments above that |
| `Camera.RaspberryPiCamera.SendFragments` | samples/sample_c/module_sample/camera_emu/test_raspberry_pi_camera.c:416-431 | the fragmenting loop sends the frame's chunks of at most 6000 bytes in offset order |
| `Pps.Sub32` | samples/sample_c/platform/linux/raspberry_pi/application/pps.c:151 | `uint32` subtraction: the difference added back to the subtrahend is the minuend modulo 2^32; it is the plain difference without underflow and wraps by 2^32 with it |
| `Pps.ToMicros` | samples/sample_c/platform/linux/raspberry_pi/application/pps.c:140 | the `uint64` product is exactly ms * 1000, so it cannot overflow, and it is 0 only for 0 |
| `Pps.OnTrigger` | samples/sample_c/platform/linux/raspberry_pi/application/pps.c:146-155 | the event time always becomes the newest time; without a predecessor the interval is unchanged; with one, the interval is (now - previous) mod 2^32 |
| `Pps.Query` | samples/sample_c/platform/linux/raspberry_pi/application/pps.c:130-143 | a null output gives INVALID_PARAMETER and no trigger gives BUSY, both leaving the output alone; otherwise success with newest * 1000; success exactly when both checks pass |
| `Pps.UntilFatal` | samples/sample_c/platform/linux/raspberry_pi/application/pps.c:173-180 | the number of polls before the first non-EINTR failure |
| `Pps.DebouncedBurstIgnored` | samples/sample_c/platform/linux/raspberry_pi/application/pps.c:197-199 | an edge with a recorded trigger and (now - previous) mod 2^32 < 800 changes no state |
| `Pps.Sub32Split` | samples/sample_c/platform/linux/raspberry_pi/application/pps.c:151 | two consecutive wrap-around differences add up to the whole difference when their sum stays below 2^32 |
| `Pps.AcceptedIntervalAtLeastDebounce` | samples/sample_c/platform/linux/raspberry_pi/application/pps.c:194-201 | an accepted edge with a predecessor stores an interval of at least 800 ms, when the time from the predecessor to the second clock reading stays below 2^32 ms |
| `Pps.FirstEventKeepsInterval` | samples/sample_c/platform/linux/raspberry_pi/application/pps.c:150-154 | the first accepted edge records its time, keeps the interval at its initial 0, and the query then reports time * 1000 |
| `Pps.ZeroClockLooksUntriggered` | samples/sample_c/platform/linux/raspberry_pi/application/pps.c:136-154 | after an event at clock 0 the query answers BUSY and leaves its output alone, and the next edge is accepted as a first one, keeping the interval |
| `Pps.QuietTurnsChangeNothing` | samples/sample_c/platform/linux/raspberry_pi/application/pps.c:174-192 | timeouts, interrupted polls, wake-ups without POLLPRI and failed reads leave the state alone and log nothing |
| `Pps.FirstEventLoggedAsInterval` | samples/sample_c/platform/linux/raspberry_pi/application/pps.c:203-212 | as written, the first edge at a non-zero time is logged as an interval of 0 ms, never as the first event |
| `Pps.IntendedLogMarksFirstEvent` | samples/sample_c/platform/linux/raspberry_pi/application/pps.c:207-212 | with the intended message an edge is logged as the first event exactly when no trigger was recorded; otherwise with its interval from the predecessor and its time * 1000 |
| `Pps.IntendedAgreesAfterFirstEvent` | samples/sample_c/platform/linux/raspberry_pi/application/pps.c:203-212 | for an edge with a predecessor and a non-zero clock, the corrected message is exactly the one the code prints |
| `Pps.UntilFatalIsFirst` | samples/sample_c/platform/linux/raspberry_pi/application/pps.c:173-180 | the loop stops at the first poll that is a non-EINTR failure, or after all polls |
| `Pps.PpsMonitor.constructor` | samples/sample_c/platform/linux/raspberry_pi/application/pps.c:52-53 | the newest time and the interval start at 0 |
| `Pps.PpsMonitor.HandleEvent` | samples/sample_c/platform/linux/raspberry_pi/application/pps.c:146-155 | `handle_pps_event` is the trigger step function on the two variables |
| `Pps.PpsMonitor.GetTriggerTimeDiffMs` | samples/sample_c/platform/linux/raspberry_pi/application/pps.c:157-159 | returns the stored interval and changes nothing |
| `Pps.PpsMonitor.GetNewestPpsTriggerLocalTimeUs` | samples/sample_c/platform/linux/raspberry_pi/application/pps.c:130-143 | the return code and output are those of the query, with nothing else changed |
| `Pps.PpsMonitor.Accept` | samples/sample_c/platform/linux/raspberry_pi/application/pps.c:201-212 | an accepted edge records the trigger and logs the corrected message of the finding below, not the one the code prints (see "## Left out") |
| `Pps.PpsMonitor.Watch` | samples/sample_c/platform/linux/raspberry_pi/application/pps.c:173-214 | the watcher loop stops at the first non-EINTR poll failure, or when the polls run out; the state is that of the turns before it, each applying the debounce and then the trigger step; the log gains, in order, one intended message per accepted edge of those turns (`WatchLog`) |
| `Pps.WatchLogOnePerAcceptedEdge` | samples/sample_c/platform/linux/raspberry_pi/application/pps.c:187-212 | the watcher logs at most one message per turn, and exactly one per turn when every turn accepts its edge |

## Left out

- Process and file I/O are not executed. What the model keeps of each call:
  - `popen` and `pclose` of the encoder pipe, both `system` commands (the still capture and the conversion), and `fopen`, `fclose` and `remove` of the recording file are recorded in `ops`. The outcomes of `popen`, `fopen` and the conversion are parameters.
  - `remove`'s result is not a parameter: the source only logs whether the removal worked (lines 233-237), so the model ignores it.
  - `fread` and `feof` (lines 311-313) are not recorded; their outcome is the byte count and end-of-file parameters of `StreamTaskIteration`.
  - `fwrite` is not recorded as a call; its per-call outcome is the `fwriteResults` script, and its effect is the file contents.
  - `fflush` (line 413) is not modelled.
- The transport's `DjiPayloadCamera_SendVideoStream` is not executed either. Every buffer handed to it is recorded in the send log. Its return code is no parameter: the source only logs a failed send (lines 426-428 and 438-440) and carries on, so the model ignores it.
- The still-capture result is only logged by the camera task, so the file check after `libcamera-still` is not modelled.
- The lock itself (`MutexLock`/`MutexUnlock`) and every `TaskSleepMs` are not modelled, including the camera task's 1 s sleep before its loop (line 165). Nor are the task bodies running concurrently: the two tasks and the request functions run concurrently in the source, and the model runs their steps one at a time. Modelled are the outcomes of creating the mutex and the camera task (`mutexOk`, `taskOk` in `Camera.RaspberryPiCamera.Init`), and of the camera task creating the stream controller task (`streamTaskOk` in `Camera.RaspberryPiCamera.CameraTask`).
- The photo and video paths are parameters: `time(NULL)`, the `snprintf` formatting and its truncation to 256 bytes are left out.
- The camera task's shutdown after its loop (closing the file and pipe, destroying the stream task) is left out. So are the stream task's exit on the cleared task flag, and its `exit(EXIT_FAILURE)` when the first `popen` fails: `StartStreamTask` just records the failure.
- The fwrite retry loop's spin when fwrite returns 0 without setting the error flag is left out. Each fwrite either accepts some bytes or reports an error.
- `DjiTest_ProcessSingleNALUnit`'s frame allocation failure (lines 387-390) is left out, because allocation in Dafny cannot fail. The realloc failure in the accumulator is modelled.
- Integer widths in the camera emulation are not modelled; these values are unbounded in the model:
  - `s_photoCount` is a C `int` (lines 63 and 119); the model keeps it unbounded, so `CameraSpec.Inv`'s `photoCount >= 0` does not cover a signed overflow after 2^31 - 1 requests;
  - `total_frame_size = nal_length + 6` (line 384) and the accumulator's sizes (lines 450-463) are `size_t`; the model uses natural numbers, so wrap-around is not covered.
- `DjiTest_raspberryPiCameraDeinit` (lines 134-148: it clears the task flag, frees the accumulator and destroys the mutex) is outside the core and is not part of this model.
- `DjiTest_ProcessRawH264WithAUD` is declared but not defined, so it is not part of this model.
- Camera.RaspberryPiCamera.Init: requires an empty accumulator, as at program start; a second initialisation over buffered bytes (which leaks the old buffer) is not modelled.
- Pps.PpsMonitor.Accept: logs the corrected message (`IntendedLogLine`), not the one pps.c prints. It differs only for an edge without a predecessor or one recorded at clock 0 (`Pps.IntendedAgreesAfterFirstEvent`). The printed message is modelled by `AsWrittenLogLine`, and `Pps.FirstEventLoggedAsInterval` shows the difference. Neither watcher method covers the uninitialised `time_us`.
- `DjiTestRsp_PpsSignalResponseInit` (GPIO export, direction and edge setup, opening the value file, thread creation), and the watcher's `lseek`/`read` plumbing and unexport after the loop, are device I/O and are not part of this model. The poll outcomes and clock readings arrive as `PollResult` values.
- The log lines of timeouts and failures are not modelled; only the message after an accepted edge is.

## Findings

| source | as written | input that shows it | evidently intended | confidence | as-written member | corrected member |
|---|---|---|---|---|---|---|
| samples/sample_c/platform/linux/raspberry_pi/application/pps.c:203-212 | the message after an accepted edge depends on whether the query's `time_us` is positive; after `handle_pps_event` the newest time is the event time, so a first edge at any non-zero time logs "Interval: 0 ms" and "(First event)" is never printed for it; when the event time is 0, `time_us` is read uninitialised | a first edge, with no trigger recorded, read at clock 1000: the line carries interval 0 and time 1000000 µs | print "(First event)" when no trigger had been recorded before the edge | not executed; high | `Pps.FirstEventLoggedAsInterval` | `Pps.IntendedLogMarksFirstEvent` |
