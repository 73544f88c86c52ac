# rpi-cctv camera client, modelled in Dafny

This project models the two pieces of logic in the Raspberry Pi CCTV client.

**Live stream** (`Client/web_streaming.py`). A capture thread publishes the newest JPEG into a shared slot and counts the frames published (`_frame_seq`). Each HTTP viewer runs `frame_generator`, which remembers the number of the last frame it wrote (`last_seq`, initially -1). It writes a `multipart/x-mixed-replace` part only when the counter has moved past that number. The layout of the part follows the boundary-delimiter form of section 5.1.1 of RFC 2046.

**Recorder supervisor** (`Client/record.py`). Every ten seconds a loop compares the hour with the recording window, 06:00 to 17:59. It then starts, clears or stops the `rpicam-vid` child. While a child is held, a janitor deletes the oldest `.h264` segment if the disk is at least 90 % full.

Both are modelled as immutable state plus pure step functions. Threads and signals become arbitrary sequences of steps.

| file | module | what it holds |
|---|---|---|
| `wrappers.dfy` | `Wrappers` | `Option` (Python's `Optional`) |
| `octets.dfy` | `Octets` | bytes and ASCII literals as bytes |
| `framing.dfy` | `Framing` | the layout of one stream part, its parser, and the response body |
| `frame_hub.dfy` | `FrameHub` | the shared slot (`_latest_original`, `_frame_seq`, `_stop`), the capture loop's pass, the quality clamp |
| `stream_session.dfy` | `StreamSession` | one pass of a viewer's generator |
| `stream_trace.dfy` | `StreamTrace` | capture passes, the stop request and viewers, interleaved as event sequences, and the bytes each viewer is sent |
| `disk_cleanup.dfy` | `DiskCleanup` | the buffer directory: segments written by the child, and `cleanup_disk`'s threshold test and choice of the oldest segment |
| `recorder.dfy` | `Recorder` | `start_camera`, `stop_camera`, `shutdown` and one pass of `run` |
| `recorder_trace.dfy` | `RecorderTrace` | passes, the child writing segments or exiting on its own, and the termination signal, as event sequences |

Notes on the model:
- Both the frame counter and a viewer's number are unbounded Python integers, so no wrap-around is modelled.
- A viewer step that finds nothing new returns one of two results. `Waited` means the pass blocked on the condition until its one-second timeout. `Spun` means the pass returned at once: the counter differs from `last_seq`, but no frame exists yet.
- `StreamSession.SpinsOnlyBeforeFirstFrame` shows `Spun` happens exactly when nothing has been published and the viewer still holds -1. Until the first frame arrives, a connected viewer's loop re-enters without ever blocking (lines 76 and 83-84). This includes the case where the camera keeps failing.
- The directory is its listing in `os.listdir` order, one modification time per name. With that order, `min(files, key=os.path.getmtime)` is deterministic: it picks the first entry of least time. `DiskCleanup.Files` views the listing as a map from name to modification time.
- `stop` sets the flag but never calls `notify_all` (lines 58-61), so a waiting viewer only notices the stop when its one-second wait times out. The model has no waiting, so the stop is visible at the viewer's next pass.
- A viewer writes whenever the counter differs from its number (`!=`, line 76), not only when the counter is greater. The two tests agree on every reachable state. `StreamTrace.Valid` keeps every viewer's number between -1 and the counter, and `StreamTrace.RunPreserves` shows every interleaving keeps it.

## Model

| member | source | states |
|---|---|---|
| FrameHub.EffectiveQuality | Client/web_streaming.py:90 | the quality given to the encoder always lies in [10, 95]; it equals the configured value when that is already in range, and is 10 below the range and 95 above it |
| FrameHub.EffectiveQualityIsNearest | Client/web_streaming.py:90 | the clamped quality is the admissible value nearest to the configured one, and clamping again changes nothing |
| FrameHub.Init | Client/web_streaming.py:43-44 | a new service has no frame and a zero counter, a state satisfying the invariant "no frame exactly when the counter is 0" |
| FrameHub.Publish | Client/web_streaming.py:109-111 | a publish stores exactly the new JPEG, raises the counter by exactly 1, leaves the stop flag alone and keeps the frame/counter invariant |
| FrameHub.Stop | Client/web_streaming.py:58-59 | the stop request sets the flag and touches neither the frame nor the counter |
| FrameHub.Cycle | Client/web_streaming.py:92-111 | one pass of the capture loop: a successful encode publishes its frame and adds one to the counter; a capture exception, a missing frame or a failed encode leaves the hub exactly as it was; the stop flag is untouched and validity is kept |
| FrameHub.CyclesEffect | Client/web_streaming.py:92-111 | over any run of capture passes the counter grows by exactly the number of successful encodes, and the slot holds the last encoded frame (or its old frame if none succeeded) |
| FrameHub.FailedCyclesPublishNothing | Client/web_streaming.py:93-107 | capture exceptions, missing frames and failed encodes leave the frame and the counter exactly as they were, however many occur |
| FrameHub.SeqNeverDecreases | Client/web_streaming.py:109-111 | the counter never decreases, whatever the camera and encoder do |
| Framing.Part | Client/web_streaming.py:72-86 | a part is `--frame`, CRLF, `Content-Type: image/jpeg`, an empty line, the frame, and CRLF; it is 39 bytes longer than the frame |
| Framing.ParsePartOfPart | Client/web_streaming.py:86 | removing the fixed prefix and suffix from a part recovers its frame |
| Framing.PartOfParsePart | Client/web_streaming.py:86 | every chunk the parser accepts is exactly the part of the frame it returns |
| Framing.PartInjective | Client/web_streaming.py:86 | different frames are written as different parts |
| Framing.Body | Client/web_streaming.py:172-174 | the response body after n frames is n parts back to back, 39 bytes per part longer than the frames |
| Framing.BodyEndsWithCrlf | Client/web_streaming.py:86 | a body that has written at least one part ends with the CRLF closing the last part |
| Framing.DelimiterBeforeEachLaterPart | Client/web_streaming.py:86 | in the body, every part after the first is preceded by CRLF, and with its opening `--frame` that CRLF forms the RFC 2046 delimiter |
| Framing.BoundaryMatchesContentType | Client/web_streaming.py:165-167 | the two independent literals agree: the `--frame` each part starts with (line 72) is `--` followed by the value of the `boundary` parameter ending this Content-Type |
| Framing.BodyCons | Client/web_streaming.py:172-174 | a body is its first part followed by the body of the remaining frames |
| StreamSession.Connect | Client/web_streaming.py:72-73 | a newly connected viewer is live and remembers a number below every counter value |
| StreamSession.Step | Client/web_streaming.py:74-86 | a pass ends the generator exactly when the stop flag is set; it writes a part exactly when the counter differs from the viewer's number and a frame exists; that part carries the current frame, and the viewer then remembers the counter, otherwise its number is unchanged |
| StreamSession.FirstStep | Client/web_streaming.py:73-85 | a fresh viewer's first pass writes the current frame once anything has been published; before that it writes nothing and keeps -1 |
| StreamSession.SpinsOnlyBeforeFirstFrame | Client/web_streaming.py:76-84 | a live viewer returns without blocking and without writing exactly when nothing has been published and it still holds -1; it blocks exactly when its number equals the counter |
| StreamSession.LatestWins | Client/web_streaming.py:76-85 | however many capture passes happen between two viewer passes, if any of them published, the next viewer pass writes only the last published frame and jumps to its number |
| StreamSession.Broadcast | Client/web_streaming.py:80-86 | two live viewers with different histories, both behind the counter, write the same part and reach the same number (the server runs one viewer at a time; see Left out) |
| StreamTrace.Init | Client/web_streaming.py:43-44 | the service starts in a valid state with no viewers |
| StreamTrace.Apply | Client/web_streaming.py:59-112 | every event keeps the state valid (no viewer ahead of the counter); the counter never drops, the stop flag is never cleared, a viewer's number never goes back, viewer events leave the slot alone, and a failed write ends only that viewer |
| StreamTrace.RunPreserves | Client/web_streaming.py:109-111 | along any interleaving the state stays valid, the counter never decreases and a set stop flag stays set |
| StreamTrace.DeliveriesIncrease | Client/web_streaming.py:76-85 | along any interleaving, the frames a viewer receives carry strictly increasing numbers, each newer than the one it had seen and none beyond the final counter |
| StreamTrace.NothingAfterStop | Client/web_streaming.py:74-79 | once the stop flag is set, no viewer writes another part, whatever happens next |
| StreamTrace.NothingAfterDisconnect | Client/web_streaming.py:172-176 | a viewer whose write failed never writes again and stays ended |
| StreamTrace.WrittenIsBody | Client/web_streaming.py:172-174 | along any interleaving, the bytes written to a viewer are exactly the parts of the frames delivered to it, back to back: a well-formed multipart body |
| DiskCleanup.Oldest | Client/record.py:87-96 | the scan finds a segment exactly when some name ends in `.h264`; it then picks one of least modification time, the first of those in listing order |
| DiskCleanup.OldestUnique | Client/record.py:96 | only one entry satisfies the oldest-segment condition, so the choice is determined by the listing |
| DiskCleanup.Without | Client/record.py:97 | deleting an entry leaves every other entry, in the same order |
| DiskCleanup.NamesWithout | Client/record.py:97 | deleting one entry loses at most that entry's name: every other listed name is still listed |
| DiskCleanup.WriteSegment | Client/record.py:22-41 | the child's `-o …_%04d.h264` segment output adds the name or gives an existing name the new time in place; no other entry changes |
| DiskCleanup.WriteSegmentKeepsDistinct | Client/record.py:22-41 | writing a segment keeps the names in the directory distinct |
| DiskCleanup.FilesOfRewrite | Client/record.py:22-41 | as a map: rewriting a listed name in place sets its time and changes no other file |
| DiskCleanup.FilesOfWriteSegment | Client/record.py:22-41 | as a map: writing a segment sets that name's time and leaves every other file as it was |
| DiskCleanup.CleanupDisk | Client/record.py:79-103 | a zero total size is an error that deletes nothing; below 90 % nothing is deleted; at or over 90 % with no `.h264` file nothing is deleted; otherwise exactly the oldest segment is deleted and all other entries stay |
| DiskCleanup.FilesOfListing | Client/record.py:87-91 | as a map from name to modification time, the directory holds exactly the listed names with their own times |
| DiskCleanup.FilesWithout | Client/record.py:97 | deleting one entry removes that name from the map and changes no other name or time |
| DiskCleanup.OldestFileOfMap | Client/record.py:87-97 | as a map: removing the oldest recording removes one `.h264` file whose time is least among `.h264` files; every other file keeps its name and time, and names stay distinct |
| DiskCleanup.CleanupRemovesOldestFile | Client/record.py:85-97 | as a map: when the janitor deletes, it deletes exactly one `.h264` file of least time and changes no other file |
| Recorder.Init | Client/record.py:50-52 | a new supervisor holds no child and its loop is running |
| Recorder.StartCamera | Client/record.py:63-67 | a child is started only when none is held; a held child is left alone, so there is never a second one |
| Recorder.StopCamera | Client/record.py:69-77 | afterwards no child is held; nothing changes when none was held |
| Recorder.Shutdown | Client/record.py:58-61 | the signal handler leaves no child and a stopped loop |
| Recorder.Decide | Client/record.py:113-125 | in the window (hours 6 to 17): start when nothing is held, clear a child that has exited, keep a live one; outside it: stop a held child, otherwise do nothing |
| Recorder.Supervise | Client/record.py:112-125 | in the window a child is held afterwards unless a dead one was just cleared; outside it none is; a child is started only in the window, only when none was held, and at most one per pass |
| Recorder.Tick | Client/record.py:108-132 | the janitor runs exactly when a child is held after the decision, so never outside the window nor in the pass that clears a dead child; it deletes at most one file per pass |
| Recorder.DeadChildRestartedNextTick | Client/record.py:113-129 | a child found dead in the window is cleared without restart or cleanup in that pass; the next pass in the window starts a fresh one |
| RecorderTrace.Apply | Client/record.py:58-132 | every event keeps the supervisor valid and a stopped loop stays stopped; only a loop pass removes files, at most one entry each; only a live held child adds files, and only `.h264` segments; a segment write leaves the supervisor alone |
| RecorderTrace.RunPreserves | Client/record.py:63-129 | along any history the held child is the most recently started one, a stopped supervisor holds none, and directory names stay distinct |
| RecorderTrace.ApplyLosesAtMostOne | Client/record.py:96-97 | a single event makes at most one name disappear, and only a loop pass makes any disappear |
| RecorderTrace.RemovalsBoundedByTicks | Client/record.py:96-97 | along any history, however many segments the child writes meanwhile, no more names leave the directory than there were loop passes, and the listing never shrinks by more than that |
| RecorderTrace.NoRemovalWithoutTicks | Client/record.py:96-97 | along a history without loop passes no name leaves the directory, whatever the child writes |
| RecorderTrace.SegmentWriteOnFiles | Client/record.py:22-41 | as a map: while a live child is held, a segment write sets that segment's time and leaves every other file; at any other time it changes nothing |
| RecorderTrace.ShutdownIsFinal | Client/record.py:58-61 | after the termination signal, no child is held, the loop is stopped, and no later event changes anything |

## Left out

- Threads, the condition variable, `notify_all` and the one-second wait timeout are not modelled. They become interleavings of the events in `StreamTrace`, and a wait that times out is a `Waited` pass.
- The camera and the JPEG encoder are not modelled. A pass reduces to one of the four outcomes of `FrameHub.Capture`, and the encoded bytes are opaque.
- An exception raised by `cv2.imencode` (line 104) is not modelled. That call sits outside the `try` at lines 93-98, so such an exception ends `_loop` for good without setting `_stop`: the hub stays frozen while viewers keep re-waiting every second. `FrameHub.Capture` has no fifth outcome for this; a `StreamTrace` history whose `Produce` events simply stop covers the same behaviour.
- The sleeps for back-off (0.2 s and 0.05 s) and for the capture interval are timing only, and are left out.
- `StreamTrace.Apply` admits capture passes after the stop flag is set. In the code the loop re-checks the flag only at the top of each pass, so a pass that already started can still publish once. The event model allows any number of such passes, so it covers more behaviours than the code can produce.
- The HTTP server (line 192) is a plain `HTTPServer`, which serves one request at a time, so at most one viewer's generator is live at once. `StreamTrace` and `StreamSession.Broadcast` allow any number of viewers in any interleaving. That covers more behaviours than the service has, and everything proved there holds of single-viewer runs in particular.
- The HTTP server, routing, the landing page and the 404 path are library plumbing and are not modelled. Of the stream handler, only the written chunks (`Framing.Body`) and a failed write (`ViewerDisconnects`) are modelled.
- `stop` joining the capture thread and closing the camera are not modelled: those are effects on external libraries.
- Configuration loading, `main` and the global `service` handle are wiring, and are left out.
- The stream never writes a closing delimiter (`--frame--`). It ends by closing the connection.
- `Framing.ParsePart` splits by the fixed layout of a part. The code does not check that a JPEG is free of the byte sequence CRLF `--frame`. A receiver that splits on the delimiter could therefore cut such a frame, so splitting on the delimiter is not modelled.
- `DiskCleanup.WriteSegment` appends a new name at the end of the listing. `os.listdir` returns names in an arbitrary order, so the position is the model's choice; no proved property depends on it.
- The child's segment names (host name, start time, four-digit counter) and its two-minute cadence are not modelled. A segment write is an event carrying any `.h264` name and time, possible only while a live child is held.
- The child process is only none, alive or exited. `Popen`, `terminate`, `wait` with its five-second timeout, `kill`, and a failed `Popen` (which would end `run`) are not modelled.
- Signal registration is not modelled. The signal is an event between loop passes. A signal delivered in the middle of a pass is not modelled: in that case the rest of the pass can still start a child.
- The clock and the ten-second sleep are left out. The hour is a parameter of each pass.
- The real file system is not modelled. `disk_usage` gives the two integers `total` and `used`.
- Errors from `listdir`, `getmtime` or `remove` are caught and logged by the code. The model assumes none happens, and the only error it models is the division by a zero total.
- `DiskCleanup.CleanupDisk`: the floating-point test `used / total * 100 >= 90` is modelled as the exact test `used * 100 >= 90 * total`. Floating-point rounding right at the threshold is not modelled.
- Modification times are integers, not floats, and the map view of the directory assumes the names in a listing are distinct.
- The `.h264` test is case-sensitive, like `str.endswith`.
