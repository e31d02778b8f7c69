# Verified models of a Kinect driver and its JSON library

The repository is a sound- and depth-tracking demo on top of libfreenect, a user-space driver for
the Kinect. These Dafny modules model the parts of it whose correctness depends on long runs, on
interleavings, on exact arithmetic or on two pieces of code undoing each other, and prove what they
are for. `dafny verify dfyconfig.toml` checks everything.

| modules | what they model |
|---|---|
| `PacketStreams`, `StreamRuns`, `StreamContents` | isochronous packet reassembly: an 8-bit sequence number, a slot counter, loss recovery, resynchronisation, and what the buffer holds when it is exchanged between packets |
| `SyncRing`, `SyncWrapper`, `RunloopGate` | the synchronous wrapper: a triple buffer between the driver and its callers, and the gate that lets tasks into the run loop |
| `UsbIso` | the life of USB transfers: start, callback, stop |
| `AudioWindows`, `AudioLosses`, `AudioCapture` | audio windows, what packet loss makes of them, the capture program, and the reader at the other end of its pipe |
| `Unpack`, `Bayer`, `Registration`, `DiffTables` | pixel kernels: bit unpackers, the Bayer demosaic, the depth z-buffer, the forward-difference tables |
| `JsonUtf8`, `JsonStrings`, `JsonText`, `JsonParser`, `JsonSerializer`, `JsonRoundTrip`, `JsonEquality`, `JsonObjects`, `JsonPaths`, `JsonNodes` | the JSON library: UTF-8 and UTF-16, parser, two-pass serializer, equality, object tables, dotted names, deep copies |
| `Arith`, `Options` | division facts and the option type that several of these share |

How the models are built:

- A record that the source updates in place is a class with those fields (`PacketStream`,
  `BufferRing`, `IsoStream`, `AudioStream`, `Parser`, `ObjectTable`, `Node`). Its methods keep the
  loops and branches of the source and are proved against a specification function or predicate;
  the theorems over whole runs are lemmas about that specification.
- Threads are interleavings of atomic steps. A run is a sequence of events; an event that is not
  enabled in a state is skipped, so the lemmas hold for every sequence.
- USB, the clock and the operating system are parameters or arbitrary choices: packets, statuses,
  answers to submissions and lengths are unconstrained. Files are sequences.
- Fixed widths are written out: the 8-bit sequence number, 32-bit bit buffers and shift registers,
  the 32-bit clamping of the registration coefficients, C's division towards zero. Pixels and
  samples that are only copied stay integers.
- Pointers into a buffer are indices; the rest of a NUL-terminated text is a suffix, at whose end
  the terminator is read.

Where the code and what is written about it differ, the model follows the code:

- The demosaic's comment gives (a+b+c+d)/4; the code averages two rounded averages, which can be
  one less (`Bayer.MeanOfFour` says exactly when).
- The unpackers' comment gives a source of n*vw/8 bytes; the code reads that rounded up.
- `process_string` comments that 0x00-0x19 are invalid; the code rejects everything below 0x20.
- A lone minus sign parses as the number 0 and consumes nothing.
- `json_object_dotset_value` can fail after it has created objects on the way
  (`JsonPaths.FailedSetChanges`).
- `stream_process` delivers a frame whose end was lost only after it has copied the packet that
  reveals the loss. If the callback redirects the stream, as the synchronous wrapper does, that
  packet stays in the old buffer, and the frame it belongs to is later handed out as complete with
  stale bytes in its place (`StreamContents.HandedOutWholeIff` says exactly when).
- "-0" is read as -0.0 and printed as "-0", one character more than the 0 it is equal to; the parser
  model puts it with the numbers that are no integers.
- `fnusb_stop_iso` cancels transfers that could not be allocated, and waits for ever if it is called
  from inside the user callback (`UsbIso.IsoStream.Stop`, `UsbIso.StopEndsIff`).
- With rows of padding, `freenect_map_rgb_to_depth` and registration place a pixel differently
  (`Registration.ColourIndexIsTarget`).


## Model

| member | source | states |
|---|---|---|
| `PacketStreams.PacketStream.StreamProcess` | libfreenect/src/cameras.c:87-229 | one packet, whatever its bytes, takes the record from any valid state to the state that `Process` defines, returns the size it defines, and keeps the record valid |
| `PacketStreams.PacketStream.RecoverLost` | libfreenect/src/cameras.c:129-155 | the 8-bit distance to the expected sequence number is counted; more than 5 drops synchronisation; otherwise the position moves on, completing the frame if it wraps |
| `PacketStreams.PacketStream.AcceptPacket` | libfreenect/src/cameras.c:157-228 | flag and length checks, the copy into the slot of the position, and the end-of-frame bookkeeping; a wrong flag drops synchronisation, an overlong packet is dropped |
| `PacketStreams.PacketStream.StorePacket` | libfreenect/src/cameras.c:202-214 | the payload replaces exactly the bytes of its slot; position, 8-bit sequence number, packet count and timestamp follow |
| `PacketStreams.PacketStream.Init` | libfreenect/src/cameras.c:231-258 | after initialisation the record is valid for the given sizes and waits for a start of frame, with the buffers that the user buffer and the split decide |
| `PacketStreams.PacketStream.SetBuf` | libfreenect/src/cameras.c:272-293 | only the buffers change, never the position in the frame; -1 exactly for a null buffer on a running stream without one of its own |
| `PacketStreams.PacketStream.ComputeSizes` | libfreenect/src/cameras.c:254-257 | packets per frame and last packet size satisfy the layout equation frame = (P-1) * packet + last |
| `PacketStreams.ComputedSizes` | libfreenect/src/cameras.c:254-257 | the remainder and rounded-up quotient that are computed fill the frame exactly |
| `PacketStreams.Layout.SlotFits` | libfreenect/src/cameras.c:202-208 | every slot of a frame, with the packet size expected there, lies inside the frame |
| `PacketStreams.Layout.SlotsApart` | libfreenect/src/cameras.c:202-208 | slots of different packets do not overlap |
| `PacketStreams.RecoverSafe` | libfreenect/src/cameras.c:129-155 | loss recovery keeps 0 <= got_pkts <= pkt_num < pkts_per_frame and reports nothing or one whole frame |
| `PacketStreams.AcceptSafe` | libfreenect/src/cameras.c:157-228 | so does accepting a packet, which writes only inside the first frame_size bytes |
| `PacketStreams.ProcessSafe` | libfreenect/src/cameras.c:87-229 | one step of the safety invariant, for arbitrary packet bytes |
| `StreamRuns.RunSafe` | libfreenect/src/cameras.c:87-293 | over every run of packets and redirections from `stream_init`: got_pkts <= pkt_num < pkts_per_frame while synchronised, bytes past the frame never change, each call returns 0 or frame_size, valid_pkts <= pkts_per_frame once synchronised |
| `StreamRuns.OneFramePerPacket` | libfreenect/src/cameras.c:129-155 | with P >= 6 a call returns nonzero exactly when valid_frames grows, by one |
| `StreamRuns.CountsTwoIff` | libfreenect/src/cameras.c:129-226 | for every P, valid_frames grows by two in one call, which then reports one frame, exactly when the packet ends a frame and the gap before it wraps the position to the last slot |
| `StreamRuns.SixIsTight` | libfreenect/src/cameras.c:129-226 | in that situation two frames are counted if and only if P is at most 5, so six is the threshold |
| `StreamRuns.ReportsAreFrames` | libfreenect/src/cameras.c:129-228 | over every run with P >= 6 the number of nonzero returns is the growth of valid_frames |
| `StreamRuns.InStepIff` | libfreenect/src/cameras.c:129-168 | a stream in step that receives packet n when it expected `next` is in step afterwards if and only if the 8-bit gap is at most 5 and the packets hidden by the 8-bit counter fill whole frames |
| `StreamRuns.RecoverTracks` | libfreenect/src/cameras.c:129-155 | loss recovery moves the slot counter by the 8-bit gap, modulo packets per frame |
| `StreamRuns.AcceptInSlot` | libfreenect/src/cameras.c:157-228 | a packet of the sender whose slot is the position is stored there and keeps the stream in step |
| `StreamRuns.AcceptOutOfSlot` | libfreenect/src/cameras.c:157-168 | a packet whose own slot disagrees with the position keeps the stream synchronised exactly when both are interior, and completes nothing |
| `StreamRuns.StaysOutOfStep` | libfreenect/src/cameras.c:157-168 | and cannot leave it in step |
| `StreamRuns.OutOfStepIff` | libfreenect/src/cameras.c:129-168 | a stream that is out of step after loss recovery stays synchronised over a packet exactly when its position and the packet's own slot are both interior; only the recovery can report a frame |
| `StreamRuns.LosesSync` | libfreenect/src/cameras.c:129-168 | once packets arrive again, a stream out of step reports nothing and loses synchronisation by the time its position reaches the end of the frame |
| `StreamRuns.Resyncs` | libfreenect/src/cameras.c:114-125 | an unsynchronised stream ignores every packet but a start of frame, and from that one it is in step |
| `StreamRuns.ShortGap` | libfreenect/src/cameras.c:129-228 | after a gap of at most five lost packets: slot, bytes written, frames completed, counters and timestamps of the next state |
| `StreamRuns.WaitsForSof` | libfreenect/src/cameras.c:114-125 | before the first start of frame nothing changes and every call returns 0 |
| `StreamRuns.NeverDesyncs` | libfreenect/src/cameras.c:114-228 | no desync: if at most 5 consecutive packets are lost, after the first start of frame the stream is in step with the sender after every packet, for runs of any length |
| `StreamRuns.SlotsAndFrames` | libfreenect/src/cameras.c:129-228 | relative packet n is copied into slot n mod P and nothing else changes; floor((n+1)/P) frames have been counted; the call reports one exactly when that number grows, even when end-of-frame packets are lost |
| `StreamRuns.ReportedFrame` | libfreenect/src/cameras.c:147-152 | valid_pkts of a reported frame is the number of its packets that arrived, and its timestamp that of the last of them |
| `StreamContents.FrameContents` | libfreenect/src/cameras.c:202-207 | after every packet, each packet of its frame that arrived since the buffer was last redirected is in its slot of the raw buffer |
| `StreamContents.StaleContents` | libfreenect/src/cameras.c:272-293 | a slot that no packet has reached since the last redirection holds what the new buffer held |
| `StreamContents.LostEndContents` | libfreenect/src/cameras.c:129-214 | a frame whose end was lost is handed out when a packet of a later frame arrives; its packets that arrived since the last redirection are in their slots, except that the revealing packet is in the slot it has in its own frame |
| `StreamContents.SlotsMakeFrame` | libfreenect/src/cameras.c:202-207 | slots that hold full consecutive payloads hold their concatenation |
| `StreamContents.LossFreeFrame` | libfreenect/src/cameras.c:202-228 | a frame that lost nothing, without a redirection between its packets, is handed out as the concatenation of its payloads |
| `StreamContents.ReportsIff` | libfreenect/src/cameras.c:147-228 | a call reports a frame exactly when its packet is the first to end or to pass the frame of the packet before it |
| `StreamContents.WholeFrameReported` | libfreenect/src/cameras.c:216-226 | a frame that lost nothing is reported at its end-of-frame packet with frame_size |
| `StreamContents.WhereRedirected` | libfreenect/wrappers/c_sync/libfreenect_sync.c:137-149 | if every report redirects the stream, as the wrapper does, only the first packet of a whole frame can be followed by a redirection, and is exactly when the packet before it was lost |
| `StreamContents.WholeFrameHandedOut` | libfreenect/src/cameras.c:129-228 | what a stream redirected at every report hands out for a frame that lost nothing: its payloads, except that slot 0 is what the new buffer held if the packet before the frame was lost; valid_pkts is P in both cases |
| `StreamContents.HandedOutWholeIff` | libfreenect/src/cameras.c:129-228 | so it is the frame that was sent if and only if the packet before its first one arrived (or there is none), or the new buffer held the same bytes in slot 0 |
| `StreamContents.StaleFrame` | libfreenect/src/cameras.c:129-155 | the failing input: of the first two frames only the end of the first is lost; the second is handed out as complete with a stale slot 0 |
| `StreamContents.StaleFrameHappens` | libfreenect/src/cameras.c:129-155 | such a run exists for every layout and every unsynchronised stream |
| `SyncRing.NextKeeps` | libfreenect/wrappers/c_sync/libfreenect_sync.c:137-149 | every enabled step of every thread keeps the invariant on locks, buffers, driver target and frame contents |
| `SyncRing.DriverKeeps` | libfreenect/wrappers/c_sync/libfreenect_sync.c:137-149 | the steps of the driver and its callback keep it |
| `SyncRing.GetKeeps` | libfreenect/wrappers/c_sync/libfreenect_sync.c:330-343 | the steps of `sync_get` keep it |
| `SyncRing.SetupKeeps` | libfreenect/wrappers/c_sync/libfreenect_sync.c:231-253 | the steps of setup and format change keep it, a start that fails and is ignored included |
| `SyncRing.RunInv` | libfreenect/wrappers/c_sync/libfreenect_sync.c:137-343 | the invariant holds in every state reachable by any interleaving |
| `SyncRing.Safety` | libfreenect/wrappers/c_sync/libfreenect_sync.c:137-149 | in every reachable state the assertion data == bufs[2] holds, the slots are three different buffers, a running stream fills bufs[2], and the buffer last returned is not the target and still holds its frame |
| `SyncRing.SameBuffers` | libfreenect/wrappers/c_sync/libfreenect_sync.c:330-343 | only freeing and allocating change which buffers the ring consists of |
| `SyncRing.HeldBuffer` | libfreenect/wrappers/c_sync/libfreenect_sync.c:330-343 | the buffer last returned keeps its contents until the next get or a format change |
| `SyncRing.ReturnedFrame` | libfreenect/wrappers/c_sync/libfreenect_sync.c:330-343 | `sync_get` returns a finished frame with its own timestamp, the newest that was published |
| `SyncRing.DeliveredGrows` | libfreenect/wrappers/c_sync/libfreenect_sync.c:330-343 | delivered frame numbers never decrease |
| `SyncRing.StrictlyIncreasing` | libfreenect/wrappers/c_sync/libfreenect_sync.c:330-343 | delivered frames are strictly increasing and each is the newest published when it is taken |
| `SyncRing.CallbackIsPublish` | libfreenect/wrappers/c_sync/libfreenect_sync.c:139-148 | the fine-grained steps of the callback amount to one swap, retarget and publication |
| `SyncRing.GetIsTake` | libfreenect/wrappers/c_sync/libfreenect_sync.c:332-341 | the fine-grained steps of `sync_get` amount to one exchange that clears `valid` |
| `SyncWrapper.BufferRing.ProducerCbInner` | libfreenect/wrappers/c_sync/libfreenect_sync.c:137-149 | on real buffers and a real stream record: the assertion holds, the ring changes as `Publish` says, and the stream is redirected to the new bufs[2], whose old bytes become its raw buffer unless it is split |
| `SyncWrapper.BufferRing.SyncGet` | libfreenect/wrappers/c_sync/libfreenect_sync.c:336-341 | the ring changes as `Take` says and the newest buffer and its timestamp are returned |
| `SyncWrapper.BufferRing.AllocRing` | libfreenect/wrappers/c_sync/libfreenect_sync.c:75-122 | three fresh different buffers of the mode, or rejection without change |
| `SyncWrapper.BufferRing.ChangeMode` | libfreenect/wrappers/c_sync/libfreenect_sync.c:231-253 | after a format change the stream is unsynchronised and drives the new ring; if its start failed it is stopped with the ring allocated; after a rejected mode it is stopped and the ring is empty |
| `RunloopGate.PendingKept` | libfreenect/wrappers/c_sync/libfreenect_sync.c:162-178 | pending_runloop_tasks stays the number of tasks between inc and dec |
| `RunloopGate.NextKeeps` | libfreenect/wrappers/c_sync/libfreenect_sync.c:188-215 | every step keeps the counter and the lock discipline |
| `RunloopGate.RunInv` | libfreenect/wrappers/c_sync/libfreenect_sync.c:162-215 | they hold in every reachable state, for any number of tasks and loops |
| `RunloopGate.Exclusion` | libfreenect/wrappers/c_sync/libfreenect_sync.c:355-374 | while a task is inside, no run loop processes events and no other task is inside; the counter is never negative |
| `RunloopGate.StaysPending` | libfreenect/wrappers/c_sync/libfreenect_sync.c:180-186 | between its inc and its dec a task keeps the counter positive |
| `RunloopGate.BoundedBypass` | libfreenect/wrappers/c_sync/libfreenect_sync.c:188-197 | between a task's inc and its dec, and so before it gets the lock, a loop starts `freenect_process_events` at most once |
| `RunloopGate.NoNewRound` | libfreenect/wrappers/c_sync/libfreenect_sync.c:180-197 | while a task is pending a loop that is not past its wait does not get past it |
| `RunloopGate.BypassHappens` | libfreenect/wrappers/c_sync/libfreenect_sync.c:188-197 | the bound is tight: in a given nine-step interleaving the one start does happen |
| `UsbIso.CallbackConserves` | libfreenect/src/usb_libusb10.c:726-806 | in-flight plus dead transfers stay num_xfers under every status and every answer to a resubmission |
| `UsbIso.RunConserves` | libfreenect/src/usb_libusb10.c:726-806 | over every run: conservation, all dead exactly when nothing is in flight, and after the stop the user callback never runs |
| `UsbIso.SlicesDisjoint` | libfreenect/src/usb_libusb10.c:741-745 | packet slices lie inside the allocation of xfers*pkts*len bytes and different ones do not overlap |
| `UsbIso.IsoStream.Start` | libfreenect/src/usb_libusb10.c:821-865 | after start, exactly the allocated and accepted transfers are in flight and the rest are counted dead |
| `UsbIso.IsoStream.IsoCallback` | libfreenect/src/usb_libusb10.c:726-806 | the record changes as `Callback` says, and the user gets packet j of transfer i at its slice, only on completion and only before `dead` |
| `UsbIso.IsoStream.WalkPackets` | libfreenect/src/usb_libusb10.c:741-745 | the walking pointer visits exactly the slices of the transfer |
| `UsbIso.IsoStream.Stop` | libfreenect/src/usb_libusb10.c:867-895 | if every transfer was allocated, the stop ends with nothing in flight, so the buffers can be freed; otherwise it faults on the transfer that is missing, with everything still in flight |
| `UsbIso.IsoStream.AwaitAll` | libfreenect/src/usb_libusb10.c:880-883 | the loop over events ends: each event leaves fewer transfers in flight |
| `UsbIso.StopEndsIff` | libfreenect/src/usb_libusb10.c:880-883 | in any state, also inside a callback, the loop can end if and only if the transfers in flight and the dead ones are at least num_xfers |
| `UsbIso.SumKept` | libfreenect/src/usb_libusb10.c:726-806 | their sum never changes, whatever the events |
| `AudioWindows.AudioStream.Start` | libfreenect/src/audio.c:156-180 | the buffers start silent and in window 0 |
| `AudioWindows.AudioStream.IsoIn` | libfreenect/src/audio.c:85-140 | for every 16-bit channel number the record changes as `Next` says; the callback gets the old buffers exactly when the window changes; the channel is marked as seen in the window, or `stray` says that its index misses the array |
| `AudioWindows.AudioStream.Store` | libfreenect/src/audio.c:111-132 | the samples of a channel replace exactly its half of its microphone, or the cancelled stream |
| `AudioWindows.DepositHolds` | libfreenect/src/audio.c:111-132 | storing one channel puts it in place and leaves every other channel of the window in place |
| `AudioWindows.WindowTaken` | libfreenect/src/audio.c:85-140 | a complete window in any order, repeats included: one callback with what was there before, then exactly the window |
| `AudioCapture.RunDelivers` | libfreenect/src/audio.c:93-110 | over every run of complete windows, each window's callback carries exactly channels 2k+2 and 2k+3 for microphone k, after the silence of the start if there is one |
| `AudioLosses.EveryCallback` | libfreenect/src/audio.c:93-132 | over every sequence of packets, complete windows or not: the callback for a change of window gets, for each channel, the samples of the last packet of that channel before the change, or silence |
| `AudioLosses.CallbacksAreChanges` | libfreenect/src/audio.c:93-99 | it runs once for every change of window |
| `AudioLosses.BuffersAreLatest` | libfreenect/src/audio.c:111-132 | at any time the buffers are the last packet of every channel, laid out by microphone |
| `AudioLosses.LostChannelRepeats` | libfreenect/src/audio.c:111-132 | what a lost packet leaves behind: the half it would have filled still holds what it held at the callback before |
| `AudioCapture.InCallback` | libfreenect/examples/audio_capture.c:15-29 | one interleaved frame of four microphones per sample |
| `AudioCapture.ReadAll` | read_kinect.py:164-180 | blocks of 128 frames until the input is too short; the columns of what was read |
| `AudioCapture.ColumnsAreRecordings` | libfreenect/examples/audio_capture.c:20-27 | the captured stream has whole blocks only, and column k is what microphone k recorded |
| `AudioCapture.RecordedRun` | libfreenect/src/audio.c:93-132 | what a microphone recorded over a run is the concatenation of its two channels, window by window |
| `AudioCapture.CaptureAndRead` | read_kinect.py:164-180 | end to end: reading the capture back gives the streams of microphones 1 and 4 of every window but the last, without loss or repetition |
| `Unpack.ConvertPackedTo16Bit` | libfreenect/src/cameras.c:304-317 | for every n and width up to 16, element i is the field of vw bits at bit i*vw of the big-endian bit string; exactly ceil(n*vw/8) bytes are read, nothing else is written |
| `Unpack.ConvertPackedTo8Bit` | libfreenect/src/cameras.c:330-342 | for widths from 8, element i is the first eight of those bits; the same bytes are read |
| `Unpack.EightBitIsTop` | libfreenect/src/cameras.c:340-340 | those are the top bits of what the 16-bit form yields |
| `Unpack.Refill` | libfreenect/src/cameras.c:310-316 | the 32-bit buffer always holds the bits between the output position and the byte position, wrap-around included |
| `Unpack.FieldSplit` | libfreenect/src/cameras.c:304-317 | a field is its first part shifted over its second |
| `Unpack.Meaning` | libfreenect/src/cameras.c:315-315 | the shifts and masks are multiplication, division and remainder by powers of two |
| `Unpack.GroupField` | libfreenect/src/cameras.c:362-369 | the eight unrolled expressions are the eight fields of eleven bytes |
| `Unpack.ConvertPacked11To16Bit` | libfreenect/src/cameras.c:345-375 | the unrolled loop yields the fields that the generic one yields, for the largest multiple of 8 up to n |
| `Registration.ScanIsNearest` | libfreenect/src/registration.c:116-174 | for every scan order, each pixel of the z-buffer is the smallest usable depth among the sources mapped to it, or 0 |
| `Registration.OrderIrrelevant` | libfreenect/src/registration.c:116-174 | scanning the same pixels in another order gives the same image |
| `Registration.ApplyRegistration` | libfreenect/src/registration.c:104-176 | for every table: `inBounds` exactly when all targets lie in the image, and then the output is the nearest depth at each pixel, for packed and unpacked input, with C's division towards zero |
| `Registration.NextPixel` | libfreenect/src/registration.c:126-133 | the group-of-eight reader yields the packed values in order |
| `Registration.ApplyDepthToMm` | libfreenect/src/registration.c:179-198 | each output is the table value of its packed pixel, clamped |
| `Registration.ApplyDepthUnpackedToMm` | libfreenect/src/registration.c:201-214 | the same for unpacked input |
| `Registration.PathsAgree` | libfreenect/src/registration.c:103-214 | unpacking first and using the unpacked path gives the same depths as the packed path |
| `Registration.MapRgbToDepth` | libfreenect/src/registration.c:356-420 | for every table and depth image: `inBounds` exactly when all depths and places are in bounds, and then black where nothing is mapped, the colour at the place where the pixel's depth is the nearest there, and otherwise unchanged |
| `Registration.FirstPass` | libfreenect/src/registration.c:364-388 | its first pass computes the places and the z-buffer over them |
| `Registration.ColourIndexIsPlace` | libfreenect/src/registration.c:377-382 | its places are those of registration with the rows shifted up front |
| `Registration.NotBehind` | libfreenect/src/registration.c:404-408 | the registered depth at a pixel's target is never behind the pixel, so the test <= means equality |
| `Registration.ColourIndexIsTarget` | libfreenect/src/registration.c:377-382 | this function and registration agree on the target exactly when start_lines is 0 |
| `Bayer.ConvertBayerToRgb` | libfreenect/src/cameras.c:453-615 | for every width >= 2 and height >= 3, exactly 3*w*h bytes are written, equal to the direct stencil with mirrored borders |
| `Bayer.ConvertRow` | libfreenect/src/cameras.c:533-612 | one row, by walking pointers and shift registers, which end at the next row |
| `Bayer.ColumnStep` | libfreenect/src/cameras.c:546-584 | the registers hold the left, current and right values and so give the stencil of the column |
| `Bayer.LastColumn` | libfreenect/src/cameras.c:585-612 | at the right border they give the stencil of the mirrored column |
| `Bayer.MeanOfFour` | libfreenect/src/cameras.c:478-492 | the average of averages is the rounded-down mean of four, or one less exactly when both pairs are odd and their halves differ in parity |
| `Bayer.CrossIsMean` | libfreenect/src/cameras.c:482-487 | so at every pixel the four-neighbour green is the commented formula, or one less under that condition on the four neighbours |
| `Bayer.DiagonalIsMean` | libfreenect/src/cameras.c:482-487 | and so is the diagonal colour |
| `Bayer.LowByOne` | libfreenect/src/cameras.c:482-487 | an image with a pixel whose red and green are both one less |
| `DiffTables.CreateDxDyTables` | libfreenect/src/registration.c:217-285 | both tables hold the entries of the two difference schemes, at every position and nowhere else |
| `DiffTables.FillRow` | libfreenect/src/registration.c:268-283 | one row of both, by running accumulators |
| `DiffTables.RowError` | libfreenect/src/registration.c:272-279 | along a row the shifted differences never exceed the exact cubic and lag by at most the stated bound |
| `DiffTables.LagBound` | libfreenect/src/registration.c:276-278 | that bound is c + c(c-1)/128 units of 2^-17 pixel |
| `DiffTables.DownIsAlong` | libfreenect/src/registration.c:250-266 | the row starts follow the same recurrence down the image |
| `DiffTables.RowSlopeError` | libfreenect/src/registration.c:250-257 | the slopes a row starts with lag by a known bound |
| `DiffTables.EntryError` | libfreenect/src/registration.c:248-284 | for every table size, each entry is at most the exact bivariate cubic and below it by a stated bound |
| `DiffTables.WithinTenthOfPixel` | libfreenect/src/registration.c:217-285 | in the 640x480 table every entry is within a tenth of a pixel of it, whatever the coefficients |
| `JsonUtf8.IsValidUtf8` | libfreenect/fakenect/parson.c:236-246 | accepts exactly the byte strings of the grammar in section 4 of RFC 3629 |
| `JsonUtf8.VerifyIsGrammar` | libfreenect/fakenect/parson.c:194-234 | the sequence test accepts exactly the characters of that grammar, with their length |
| `JsonUtf8.EscapeMeaning` | libfreenect/fakenect/parson.c:511-555 | an escape or pair is accepted exactly when it denotes a code point (section 2.5 of RFC 4627, section 2.2 of RFC 2781); what is stored for it is valid UTF-8 for that code point |
| `JsonUtf8.StoreIsUtf8` | libfreenect/fakenect/parson.c:521-547 | every stored code point is a character of the grammar with that code point |
| `JsonUtf8.DecodeMeaning` | libfreenect/fakenect/parson.c:533-547 | one or two code units decode to what they denote and to nothing else |
| `JsonRoundTrip.RoundTrip` | libfreenect/fakenect/parson.c:627-941 | for every well-formed value, layout and rest, parsing the text yields the value and stops at the rest exactly when nesting plus height is at most 2048, and fails otherwise |
| `JsonRoundTrip.SerializedParses` | libfreenect/fakenect/parson.c:1046-1054 | `json_parse_string` undoes both serializers |
| `JsonRoundTrip.ItemsRoundTrip` | libfreenect/fakenect/parson.c:719-745 | the item loop reads back the items in order, from any items already read |
| `JsonRoundTrip.MembersRoundTrip` | libfreenect/fakenect/parson.c:664-705 | the member loop reads back the members, refusing nothing when names are distinct |
| `JsonRoundTrip.QuotedRoundTrip` | libfreenect/fakenect/parson.c:616-625 | a printed string is read back, and the text after its closing quote is left |
| `JsonRoundTrip.EscapedRoundTrip` | libfreenect/fakenect/parson.c:943-1002 | the escapes undo the decoder character by character |
| `JsonRoundTrip.NumberRoundTrip` | libfreenect/fakenect/parson.c:775-785 | a printed integer is read back when what follows cannot extend it |
| `JsonRoundTrip.TextNulFree` | libfreenect/fakenect/parson.c:943-1002 | the text holds no terminator, so it is as long as `strlen` says |
| `JsonRoundTrip.ParsedIsReturnable` | libfreenect/fakenect/parson.c:627-746 | whatever the parser accepts is a value with distinct names, C strings, modelled numbers and bounded height |
| `JsonRoundTrip.ReparsesTheSame` | libfreenect/fakenect/parson.c:1046-1054 | so printing any parsed value and parsing that again gives the same value |
| `JsonRoundTrip.LookupOwn` | libfreenect/fakenect/parson.c:400-412 | with distinct names every member is found under its own name |
| `JsonSerializer.SerializeValue` | libfreenect/fakenect/parson.c:807-941 | with and without a buffer the same count is returned, that of the text; with one, exactly the text and a terminator are there and nothing else has changed |
| `JsonSerializer.SerializeString` | libfreenect/fakenect/parson.c:943-1002 | the quoted and escaped string, under the same two-pass contract |
| `JsonSerializer.SerializeArray` | libfreenect/fakenect/parson.c:820-849 | arrays, both layouts |
| `JsonSerializer.SerializeObject` | libfreenect/fakenect/parson.c:850-897 | objects, both layouts, each value looked up by its name |
| `JsonSerializer.SerializeNumber` | libfreenect/fakenect/parson.c:918-931 | numbers, into the caller's buffer or the one on the stack, which every one fits |
| `JsonSerializer.Append` | libfreenect/fakenect/parson.c:797-800 | appending writes the piece and a terminator after it, and only there |
| `JsonSerializer.NumberFits` | libfreenect/fakenect/parson.c:918-923 | at most 18 characters |
| `JsonSerializer.WroteBoth` | libfreenect/fakenect/parson.c:797-805 | adjacent writes compose to one, each overwriting the terminator before it |
| `JsonSerializer.SerializationSize` | libfreenect/fakenect/parson.c:1418-1422 | the size is the length of the text plus 1 |
| `JsonSerializer.SerializeToBuffer` | libfreenect/fakenect/parson.c:1424-1435 | succeeds exactly when the size fits; then the buffer starts with the terminated text and is otherwise unchanged; on failure it is untouched |
| `JsonSerializer.SerializeToString` | libfreenect/fakenect/parson.c:1459-1476 | a fresh buffer exactly filled by the terminated text, from which the parser reads the value back |
| `JsonStrings.ProcessString` | libfreenect/fakenect/parson.c:560-612 | the result is the decoded string and its terminator, or null exactly when decoding fails; no write leaves the buffer of len+1 |
| `JsonStrings.ProcessNeverOutgrows` | libfreenect/fakenect/parson.c:563-567 | the decoded string is never longer than what stands between the quotes |
| `JsonStrings.AfterEscape` | libfreenect/fakenect/parson.c:516-551 | an escape or a surrogate pair ends before the closing quote |
| `JsonStrings.ParseUtf16At` | libfreenect/fakenect/parson.c:511-555 | the bytes are stored at the output pointer and both pointers end on the last one used |
| `JsonStrings.ValidStaysValid` | libfreenect/fakenect/parson.c:560-612 | a quoted string of valid UTF-8 decodes to valid UTF-8 |
| `JsonParser.Parser.ParseValue` | libfreenect/fakenect/parson.c:627-650 | the recursive-descent parser returns the specified value and leaves the pointer on the specified rest; it always terminates |
| `JsonParser.Parser.ParseArrayValue` | libfreenect/fakenect/parson.c:708-746 | the array loop, and the failing trim of an array without items |
| `JsonParser.Parser.ParseObjectValue` | libfreenect/fakenect/parson.c:652-706 | the object loop, and the refusal of a repeated name |
| `JsonParser.Parser.GetQuotedString` | libfreenect/fakenect/parson.c:616-625 | the decoded string and the text after the closing quote |
| `JsonParser.Parser.SkipQuotes` | libfreenect/fakenect/parson.c:491-509 | stops right after the matching quote, or fails if there is none |
| `JsonParser.Parser.SkipWhitespaces` | libfreenect/fakenect/parson.c:48-48 | skips exactly the leading white space |
| `JsonParser.JsonParseString` | libfreenect/fakenect/parson.c:1046-1054 | parsing a serialized well-formed value of bounded height, compact or pretty, returns that value; a byte order mark is skipped |
| `JsonEquality.EqualsIsAgreement` | libfreenect/fakenect/parson.c:1907-1969 | over values with distinct names, equality holds exactly when they agree up to member order at every depth |
| `JsonEquality.EqualsIsEquivalence` | libfreenect/fakenect/parson.c:1907-1969 | so it is reflexive, symmetric and transitive |
| `JsonEquality.DuplicatesBreakSymmetry` | libfreenect/fakenect/parson.c:1936-1950 | that hypothesis is needed: with repeated names, which `json_object_add` refuses, it is not symmetric |
| `JsonEquality.ValueEquals` | libfreenect/fakenect/parson.c:1907-1969 | the loops and early exits compute it |
| `JsonEquality.MeaningCounts` | libfreenect/fakenect/parson.c:1936-1941 | with distinct names there are as many keys as members, on which the counting argument rests |
| `JsonObjects.ObjectTable.Add` | libfreenect/fakenect/parson.c:345-368 | appends unless the name is there; grows by doubling from 16 when full; count <= capacity and distinct names are kept |
| `JsonObjects.ObjectTable.Resize` | libfreenect/fakenect/parson.c:370-398 | new arrays with the same members; a capacity of 0 is refused |
| `JsonObjects.ObjectTable.NGetValue` | libfreenect/fakenect/parson.c:400-412 | finds the value under exactly the first n characters of the name |
| `JsonObjects.ObjectTable.SetValue` | libfreenect/fakenect/parson.c:1679-1698 | overwrites in place or appends; a value with a parent is refused |
| `JsonObjects.ObjectTable.Remove` | libfreenect/fakenect/parson.c:1796-1815 | removes by moving the last entry into the gap; fails exactly when the name is absent |
| `JsonObjects.ObjectTable.Clear` | libfreenect/fakenect/parson.c:1834-1845 | no members, same capacity |
| `JsonObjects.SetLookup` | libfreenect/fakenect/parson.c:1679-1698 | setting keeps names distinct and changes what is found under that name only |
| `JsonObjects.RemoveLookup` | libfreenect/fakenect/parson.c:1796-1815 | removing takes away what is found under that name only |
| `JsonObjects.RemoveDistinct` | libfreenect/fakenect/parson.c:1796-1815 | the swap with the last entry keeps names distinct |
| `JsonObjects.SetIsUpdate` | libfreenect/fakenect/parson.c:1679-1698 | set refines the update of a map |
| `JsonObjects.RemoveIsDelete` | libfreenect/fakenect/parson.c:1796-1815 | remove refines deletion from it |
| `JsonObjects.MapCounts` | libfreenect/fakenect/parson.c:1129-1131 | the count is the size of that map |
| `JsonPaths.DotGetFollows` | libfreenect/fakenect/parson.c:1100-1107 | a dotted name leads where its segments lead |
| `JsonPaths.DotSetFollows` | libfreenect/fakenect/parson.c:1716-1746 | after a successful set: the name leads to the value, longer names into it, shorter ones to objects, all others where they led before |
| `JsonPaths.DotSetThenGet` | libfreenect/fakenect/parson.c:1716-1746 | set then get returns the value; names that are neither prefix nor extension are unchanged |
| `JsonPaths.DotSetSucceeds` | libfreenect/fakenect/parson.c:1716-1746 | succeeds exactly when the value has no parent and no shorter path leads to something that is not an object |
| `JsonPaths.FailedSetChanges` | libfreenect/fakenect/parson.c:1730-1745 | a failed set changes the object exactly when the value has a parent, the way is open and an object on it is missing: the missing objects are created before the failure |
| `JsonPaths.LeavesEmptyObject` | libfreenect/fakenect/parson.c:1730-1745 | such a set of "a.b" in an empty object fails and leaves an empty object under "a" |
| `JsonPaths.RefusedIsIrrelevant` | libfreenect/fakenect/parson.c:1716-1746 | what a refused value holds does not matter |
| `JsonPaths.DotSetKeepsDistinct` | libfreenect/fakenect/parson.c:1716-1746 | names stay distinct at every depth |
| `JsonPaths.DotRemoveSucceeds` | libfreenect/fakenect/parson.c:1817-1832 | succeeds exactly where there is something to get, and otherwise changes nothing |
| `JsonPaths.DotRemoveFollows` | libfreenect/fakenect/parson.c:1817-1832 | afterwards the name and its extensions lead nowhere, unrelated names where they led before |
| `JsonPaths.RemoveUndoesSet` | libfreenect/fakenect/parson.c:1817-1832 | removing what was set where nothing was gives back exactly the old object |
| `JsonNodes.Node.DeepCopy` | libfreenect/fakenect/parson.c:1339-1416 | the copy is a valid tree of nodes none of which existed before, it has no parent, and it equals the original |
| `JsonNodes.Node.ArrayAdd` | libfreenect/fakenect/parson.c:438-449 | the array owns the child, whose parent it becomes; ownership stays a tree |
| `JsonNodes.Node.ObjectAdd` | libfreenect/fakenect/parson.c:345-368 | the same for objects; a repeated name is refused and nothing changes |
| `JsonNodes.Node.GetValue` | libfreenect/fakenect/parson.c:400-412 | the child under the first matching name, or null |
| `JsonNodes.Node.SetValue` | libfreenect/fakenect/parson.c:1679-1698 | a node with a parent, in this tree or another, is refused and nothing changes; otherwise it replaces the child of that name in place, or is appended, and ownership stays a tree |
| `JsonNodes.Node.Remove` | libfreenect/fakenect/parson.c:1796-1815 | the last child takes the place of the removed one |
| `JsonNodes.Node.DotGet` | libfreenect/fakenect/parson.c:1100-1107 | on linked nodes: the node the dotted name leads to, whose value is the one that `JsonPaths.DotGet` gives |
| `JsonNodes.Node.DotSet` | libfreenect/fakenect/parson.c:1716-1746 | on linked nodes, updated in place: the outcome and the new value are those of `JsonPaths.DotSet`, also for a value that has a parent in this tree; the name then leads to the very node that was set, names that are no prefix and no extension of it to the very nodes they led to before, every node keeps one owner, and only new nodes and those of the value join the tree |
| `JsonNodes.Node.DotSetThrough` | libfreenect/fakenect/parson.c:1726-1729 | a set goes on in the object that the first segment leads to |
| `JsonNodes.Node.EnterFirst` | libfreenect/fakenect/parson.c:1730-1745 | which is created if it is missing, without changing what the set as a whole amounts to |
| `JsonNodes.DescendantOwnsLess` | libfreenect/fakenect/parson.c:345-368 | downwards in a tree what a node owns shrinks, so no node is its own descendant |
| `JsonNodes.OnCycleIsNoTree` | libfreenect/fakenect/parson.c:1679-1698 | so no node on a closed path of children is the root of a tree |
| `JsonNodes.Node.SetInside` | libfreenect/fakenect/parson.c:1679-1698 | the inputs that `Node.SetValue` excludes: a value without a parent that contains the object is accepted, and after the call neither is the root of a tree |
| `JsonNodes.Node.DotSetInside` | libfreenect/fakenect/parson.c:1716-1746 | the same through a dotted name: accepted exactly when the way is open, and then neither the value nor the object is the root of a tree any more |
| `JsonNodes.Node.CloseCycle` | libfreenect/fakenect/parson.c:1679-1698 | the set as it runs: the path from the value down to the object closes |
| `JsonNodes.Node.DotRemove` | libfreenect/fakenect/parson.c:1817-1832 | the same for removal, which adds no node |
| `JsonNodes.Node.EnterChild` | libfreenect/fakenect/parson.c:1727-1742 | the object under a name, created if there is nothing; null exactly if there is something else |
| `JsonNodes.CreatedChild` | libfreenect/fakenect/parson.c:1731-1742 | setting through a child that was just created is setting through a missing one |
| `JsonNodes.Node.ModelDistinct` | libfreenect/fakenect/parson.c:345-353 | every object in an owned tree has distinct names at every depth |

## Left out

- The `variable_length` mode and the chunk callback of `stream_process`: neither start function enables the one, and the other is user code.
- Frames of a single packet: every shipped mode has more than a hundred, and with one the flags of start and end coincide.
- Overflow of `valid_frames` and of other frame counters, which are unbounded here; `lost_pkts` and sequence numbers wrap as in the source.
- UYVY conversion, mode tables, register writes, tilt, LED and exposure: straight-line code.
- Waiting on condition variables is modelled as giving up the lock and trying again, so liveness under an unfair scheduler is not claimed.
- The end of the run loop, which frees the rings of every device: in `RunloopGate` it is one step under the lock; `SyncRing` models runs before it.
- A failed `freenect_init` or thread creation inside `init_thread` leaves `thread_running` set; `RunloopGate` models it as a run loop that may or may not exist.
- `setup_kinect` ignores the result of a format change, so a caller can wait on an empty ring; no claim is made that it returns.
- Allocation failure, in all models but `UsbIso.IsoStream.Start`.
- UsbIso.IsoStream.IsoCallback: is one step, so a stop from inside the user callback is not an event of the runs; `UsbIso.StopEndsIff` says what its loop does in that state.
- UsbIso.IsoStream.Stop: takes from libusb that handling events hands back some transfer while one is in flight; what happens after cancelling a transfer that was never allocated is not modelled.
- AudioWindows.AudioStream.IsoIn: what a write outside the array of ten overwrites is not modelled, only that it happens.
- Outgoing audio, which the source fills with fixed patterns.
- The analysis in read_kinect.py (Fourier transforms, cross-correlation, steering): floating-point numerics.
- Bayer.ConvertBayerToRgb: needs three rows, because with fewer the source's walking pointer for the row above the last has already passed it.
- Unpack.ConvertPackedTo16Bit: widths up to 16, as the destination holds; the sources' own buffer sizes are the precondition.
- Registration.ApplyRegistration: where a target leaves the image the model stops and says so, instead of writing outside; raw depths are below 2048, the tables are inputs, and the row and index are computed without 32-bit wrap-around.
- Registration.MapRgbToDepth: the same where a depth is outside the table or a place outside the image.
- Building the registration tables and converting raw depth to millimetres: floating-point calibration.
- DiffTables.CreateDxDyTables: accumulators are unbounded, so 64-bit wrap-around is not modelled; the 32-bit start values are.
- JsonText.ParseNumber: "-0" and numbers that are not integers below 10^17 held exactly by a double are a separate outcome (`Unmodelled`): `strtod` and `%1.17g` on fractions, exponents and hexadecimal are not modelled.
- `\u0000` inside strings: the parser's users see a C string, which ends there; the model truncates it in the same way.
- `int` overflow of the serializer's count, for texts of more than 2^31 characters.
- Comments in JSON text, reading and writing files, custom allocators, schema validation, and the typed getters and setters, which wrap the modelled operations.
- Freeing values: removed and overwritten members disappear from the model without a step of their own.
- SyncWrapper.BufferRing.SyncGet: starts once a frame is there; the lock and the wait for it are in `SyncRing`.
- JsonNodes.Node.ArrayAdd, JsonNodes.Node.ObjectAdd: children are sequences, so the growth of capacities is not modelled here; for objects it is in `JsonObjects.ObjectTable`.
- JsonNodes.Node.SetValue: for a value without a parent that contains the object, `JsonNodes.Node.SetInside` takes its place, because ownership is no tree afterwards; the cycle itself is not described further.
- JsonNodes.Node.DotSet: likewise `JsonNodes.Node.DotSetInside`; nodes hold their children in sequences, the growing arrays are in `JsonObjects.ObjectTable`.
- JsonParser.Parser.ParseValue: builds values, not nodes; that a value and its copy share no node is stated by `JsonNodes.Node.DeepCopy`.
- Array operations other than adding (replace, remove, clear): they would only add easy members.
