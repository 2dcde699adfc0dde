# A model of the PPPP camera clients

The repository speaks PPPP, the UDP protocol of a family of battery cameras, in four independent
implementations: Go (`bkcam-go`), JavaScript (`PPPP`), C (`a9serv`) and Python (`aiopppp`). Packets carry
wrapping 16-bit indices and arrive lost, repeated and reordered. They are decrypted, parsed, reassembled
into JPEG frames or decoded into PCM, and in Go a supervisor restarts sessions and fans the result out.

This project models that receive path and the supervisor, and proves what they promise on every input:

* **Video, four ways.** The Go and the JavaScript slot assemblers share the frame of `VideoFrames`; the C
  writer with its 32 slots and the Python cutter over unwrapped indices have models of their own. Each is a
  class with the source's fields and steps, proved equal to a step function; the theorems are about runs of
  that function against a ghost sender and a lossy channel.
* **Audio.** The media-frame parser, serial-number de-duplication and the ADPCM decoders.
* **Cipher and packets.** The feedback cipher in its four forms, key derivation, and the Go and Python codecs.
* **The Go receive path as a whole** (`GoClient`): datagram to callback, with the channels mixed.
* **The Go supervisor** as state machines over all interleavings: the drop-oldest channel, command waiters,
  rate limits, health and peer pinning.

`GoTrueFrames`, `JsTrueFrames`, `CTrueFrames` and `PyTrueFrames` hold what comes out against the camera's true stream,
`GoFramesInTime` tells exactly which frames the Go client delivers, and `CLosses` and `PyLosses` what the C writer and
the Python session make of losses. `Machine` has runs of a deterministic machine, `Newest` the highest number of a
stream and the items newer than all before them. `dafny verify dfyconfig.toml` checks everything.

The statements about constants, headers and tables are written in numbers of their own, not in the model's constants:
the sender's packets, the byte-by-byte lemmas, the written-out tables and the known answers.

## What turned out not to hold

Each of these comes with the exact condition and with inputs on which it fails.

* A straggler of an earlier frame closes the frame being assembled in Go. The frame still comes out in full if and
  only if all of it was there before (`GoDelivery.StragglerDecides`, `GoDelivery.StragglerWitness`); an earlier packet
  is such a straggler if and only if it was sent at most 65407 packets before (`GoDelivery.EarlierIsFar`).
* Go and JavaScript part company on a malformed start that meets an open frame, and only there
  (`GoSimulatesJs.StepRelated`, `GoSimulatesJs.SeparationWitness`).
* The C writer does not always take newer packets and skip older ones. It takes a newer one if and only if it is the
  next, or no index wrap lies in between and it is not refused at the edge (`CLosses.NewerAcceptedExactly`), and it
  skips an older one if and only if no wrap lies in between or it is refused at the edge
  (`CLosses.OlderSkippedExactly`). Losing the wrapping packet, or a straggler from before the wrap, therefore stalls it
  for up to a whole cycle (`CLosses.LossAtWrapStalls` and `CLosses.StragglerStalls`, on concrete calls
  `CLosses.WrapLossWitness` and `CLosses.StragglerWitness`), and the next whole frame after a loss is written if and
  only if its start passes (`CLosses.NextFrameWrittenIffStartPasses`).
* The Python session does not always unwrap an index to the true one. Whatever the jump, it does if and only if the
  packet is of the next epoch where its index looks as if it had just wrapped (below 256 after one above 65280), of the
  previous one where it looks as if it came from before the last wrap, and of the current one otherwise
  (`PySession.Unwraps`). It goes on tracking the highest index if and only if a packet that looks wrapped is, and any
  other is of the current epoch, or of one already left and not above the last index (`PySession.KeepsTrack`); both are
  `PySession.UnwrapsExactly`. Over a run everything is unwrapped and tracked if and only if all packets are tame in this
  sense (`PySession.TrueThroughoutExactly`). There are two ways to fail: a late packet of the epoch just left puts
  a later one an epoch too far (`PySession.LatePacketShiftsEpoch`, `PySession.LatePacketWitness`), and packets lost
  around a wrap leave the session in the old epoch, where no video comes out until the new indices pass the frame cut
  last (`PyLosses.LostWrapStalls`, `PyLosses.LostWrapWitness`).
* The JavaScript ADPCM decoder applies each step size one nibble late and agrees with the other two on the
  empty input only (`JsAdpcm.JsAgreesOnlyOnEmpty`).
* Restarts are five seconds apart by the clock their callers read before the lock. The moments at which they take
  effect are five seconds apart less the time the earlier caller had waited (`Recovery.EffectsApart`), and all later
  ones are sure to be five seconds away if and only if it had not waited (`Recovery.EffectsApartExactly`).
* Printing a parsed Python command, or making a punch packet again, gives the same bytes under the stated
  conditions only (`PyPackets.PrintUndoesParse`, `PyPackets.PunchAgain`, `PyPackets.NameAgain`).

Two operations promise less than their callers get from them; the Go program does not call them that way.

* The drop-oldest channel loses the newer item at every capacity once it has more than one publisher
  (`DropOldChannel.MorePublishersLoseTheNewer`). In the program each client's channel has one publisher at a time: the
  first frame is sent while the lock is still held under which the client was registered (bkcam-go/main.go:3628-3636).
* A command call under a negative number, or one with a non-positive timeout, stays in the waiter table
  (`CommandWaiters.NegativeCommandRefused`, `CommandWaiters.ImpatientCallStays`). All callers in the program pass
  non-negative numbers and positive timeouts.

## Model

| member | source | states |
|---|---|---|
| GoAssembler.VideoAssembler.HandleVideo | bkcam-go/main.go:4187-4253 | the in-place assembler takes exactly the step of the specification, keeps a well-formed frame, and returns the bytes that step releases |
| GoAssembler.VideoFrame.Build | bkcam-go/main.go:4255-4279 | joins the hole-free slots: the image when the announced length is there, at a boundary otherwise the JPEG inside, else nothing |
| GoAssembler.VideoFrame.Store | bkcam-go/main.go:4236-4243 | a chunk goes into its slot only if that is empty; length and highest slot follow |
| VideoFrames.DistanceUnique | bkcam-go/main.go:4613-4615 | the computed slot is the only one that leads from the start index to the packet's, across the wrap |
| VideoFrames.StartExactly | bkcam-go/main.go:4189-4191 | a start is told by its first six bytes, written out |
| VideoFrames.GoodStartExactly | bkcam-go/main.go:4188-4210 | it is well-formed if and only if it has 32 bytes and bytes 16 to 19, lowest first, hold 1 to 524288 |
| GoAssembler.BoundariesClose | bkcam-go/main.go:4195-4235 | every start, well-formed or not, and every packet beyond slot 128 closes the open frame and releases it as far as it got |
| GoAssembler.ReachIsStored | bkcam-go/main.go:4236-4252 | every packet up to slot 128 is stored, and closes the frame only by completing it |
| Bytes.ByteOrders | bkcam-go/main.go:4209 | which byte comes first in 16- and 32-bit numbers |
| JpegTrim.TrimCompleteJpeg | bkcam-go/main.go:4281-4296 | the scan loop computes the trimmed image of the specification |
| JpegTrim.MarkersExactly | bkcam-go/main.go:4282-4289 | the start marker is ff d8 and the end marker ff d9 |
| JpegTrim.TrimIsWidestImage | bkcam-go/main.go:4281-4296 | the result is the slice from the first start marker to the last end marker behind it |
| JpegTrim.TrimExamples | bkcam-go/main.go:4281-4296 | three byte strings and their images, the shortest and one without among them |
| JpegTrim.TrimFindsImage | bkcam-go/main.go:4281-4296 | something is found exactly when an end marker follows the first start marker |
| JpegTrim.TrimIdempotent | bkcam-go/main.go:4281-4296 | trimming a trimmed image changes nothing |
| GoSafety.OpenFrameOk | bkcam-go/main.go:4187-4253 | after any packets: slots in 0..128 with slot 0 present, `maxSlot` the greatest, `receivedLength` the sum of the chunks |
| GoSafety.OpenFrameExplained | bkcam-go/main.go:4187-4253 | after any packets the open frame holds, for exactly the slots touched since its start packet, the payload that touched each first |
| GoSafety.EmissionExplained | bkcam-go/main.go:4187-4279 | every emission is made of the first payloads of slots 0, 1, 2, ... of one window of packets: cut to the announced length, or trimmed when nothing lay behind a hole |
| GoSafety.EmissionShape | bkcam-go/main.go:4264-4296 | a full frame has between one byte and 512 KiB, a trimmed one starts and ends with the JPEG markers and is stable under trimming |
| GoSafety.EmissionsBoundedByStarts | bkcam-go/main.go:4187-4253 | emissions and the open frame never outnumber the well-formed start packets |
| GoDelivery.Delivery | bkcam-go/main.go:4187-4279 | for any loss, repetition and reordering of the other packets between one start and the next, outputs plus what a further boundary would release are, in order, exactly what each window must contribute |
| GoDelivery.LosslessDelivery | bkcam-go/main.go:4187-4279 | when every packet arrives at least once, exactly the sent frames come out, byte for byte, and the assembler ends idle |
| GoDelivery.EmittedOnLastDistinctArrival | bkcam-go/main.go:4237-4252 | a frame leaves on the arrival that completes it and on no other |
| GoDelivery.StragglerLosesFrame | bkcam-go/main.go:4229-4235 | a packet from further back closes an incomplete frame and releases at most the JPEG inside it |
| GoDelivery.StragglerDecides | bkcam-go/main.go:4229-4235 | a window hit by such a packet comes out in full if and only if all its packets had arrived before, whatever follows |
| GoDelivery.EarlierIsFar | bkcam-go/main.go:4227-4229 | a packet sent before the start is such a one if and only if it was sent at most 65407 packets earlier |
| GoDelivery.StragglerWitness | bkcam-go/main.go:4229-4235 | a frame under the indices 10 and 11 comes out, and with packet 9 in between it does not |
| GoTrueFrames.AllEmissionsAreTrue | bkcam-go/main.go:4187-4296 | under any loss, starts included, repetition and reordering, every full emission is one whole frame of the camera, and every trimmed one the JPEG in the first packets of one frame |
| GoFramesInTime.FullIffInTime | bkcam-go/main.go:4187-4279 | for any arrivals: a full frame has come out, or is held back for the next packet, if and only if it is a camera frame whose start was followed by all its other packets before another start or a packet beyond slot 128 |
| GoFramesInTime.MultiPacketComesOut | bkcam-go/main.go:4244-4252 | such a frame of two or more packets has come out |
| GoFramesInTime.CompleteIffAllIn | bkcam-go/main.go:4255-4274 | in a reachable state the open frame is complete if and only if all packets of the true frame are in its window, and then its image is that frame |
| GoFramesInTime.HeldHasOneSlot | bkcam-go/main.go:4244-4246 | only a frame of one packet is ever held back complete |
| JsAssembler.VideoAssembler.HandleVideoPacket | PPPP/pppp.js:342-391 | the JavaScript handler takes exactly the step of its specification |
| JsAssembler.VideoAssembler.Join | PPPP/pppp.js:378-388 | the join returns the image exactly when there is no hole before the announced length |
| JsAssembler.CompleteIsReceived | PPPP/pppp.js:376 | the byte-count test made before joining never changes the outcome |
| GoSimulatesJs.StepRelated | bkcam-go/main.go:4195-4219 | one packet keeps the two clients related if and only if it is not a malformed start meeting an open frame |
| GoSimulatesJs.StepEmissions | PPPP/pppp.js:342-391 | per packet: Go's full frames plus what it then holds back equal what it held back before plus the JavaScript frames |
| GoSimulatesJs.Simulation | PPPP/pppp.js:342-391 | over every benign packet sequence the JavaScript frames are exactly Go's full frames plus at most one held back |
| GoSimulatesJs.MalformedStartDropsInGo | bkcam-go/main.go:4199-4212 | the malformed start costs Go the open frame whatever continuation packets follow |
| GoSimulatesJs.MalformedStartKeptByJs | PPPP/pppp.js:348-350 | the JavaScript client goes on with the frame and emits it when complete |
| GoSimulatesJs.SeparationWitness | PPPP/pppp.js:348-350 | three packets from the beginning on which JavaScript emits the frame and Go nothing in full |
| JsTrueFrames.AllFramesAreTrue | PPPP/pppp.js:342-391 | under any loss, starts included, repetition, reordering and malformed starts, every frame that comes out is one whole frame of the camera |
| JsTrueFrames.EmittedIffInTime | PPPP/pppp.js:342-391 | for any arrivals exactly those frames come out that are in time once malformed starts are left out |
| JsTrueFrames.EmitsWhatGoDoes | PPPP/pppp.js:347-350 | for every packet sequence: the full frames Go emits or holds back for the same packets without the malformed starts |
| PyFrameCutter.VideoQueue.HandleIncomingVideoPacket | aiopppp/aiopppp/session.py:96-109 | the queue stores chunk and boundary and publishes as its specification says |
| PyFrameCutter.VideoQueue.ProcessVideoFrame | aiopppp/aiopppp/session.py:111-143 | the cut between the two highest boundaries, and the pruning behind it |
| PyTrueFrames.AllPublishedAreTrue | aiopppp/aiopppp/session.py:96-143 | under any reordering, loss and repetition everything published is one whole true frame, with strictly increasing indices |
| PyTrueFrames.PublishedIffInTime | aiopppp/aiopppp/session.py:111-143 | a frame is published if and only if at some moment all of it and the next start had arrived and no later start had |
| PyFrameCutter.PublishForgets | aiopppp/aiopppp/session.py:138-143 | publishing forgets exactly the chunks and boundaries before the published frame |
| PyCamera.HeaderComesOff | aiopppp/aiopppp/session.py:99-106 | of a packet that begins with the marker the 32 header bytes come off, and nothing else |
| PyCamera.OthersStayWhole | aiopppp/aiopppp/session.py:104-108 | other packets stay whole, and a cut-off header leaves nothing |
| PyCamera.PublishedArePayloads | aiopppp/aiopppp/session.py:96-143 | for frames sent as header and payloads: everything published is the payloads of one frame joined, under any loss, repetition and reordering |
| PyCamera.PayloadPublishedIffInTime | aiopppp/aiopppp/session.py:96-143 | the joined payloads of a frame are published if and only if it was in time |
| PyCamera.SessionPublishesPayloads | aiopppp/aiopppp/session.py:96-143 | the same for whole orderly sessions, from wrapped indices on |
| PySession.Session.HandleDrw | aiopppp/aiopppp/session.py:418-437 | epoch, last index and queue after a packet are those of the specification |
| PySession.Session.GetDrwEpoch | aiopppp/aiopppp/session.py:411-416 | the epoch of the specification, which for a packet near the highest index is that of its true index |
| PySession.UnwrapsExactly | aiopppp/aiopppp/session.py:411-430 | for any packet, however far away: exactly when it is unwrapped to its true index, and exactly when the highest index is tracked after it |
| PySession.TrueThroughoutExactly | aiopppp/aiopppp/session.py:411-430 | over any run all packets are unwrapped and the highest is tracked throughout if and only if the run is orderly |
| PySession.UnwrapExact | aiopppp/aiopppp/session.py:411-430 | so a packet within 255 of the highest index is unwrapped to its true index, and the session keeps track if and only if the packet is not of an epoch already left |
| PySession.SessionUnwraps | aiopppp/aiopppp/session.py:411-430 | over unboundedly many wraps an orderly session behaves as if packets carried true indices, and tracks quotient and remainder of the highest |
| PySession.SessionPublishes | aiopppp/aiopppp/session.py:96-143 | end to end: the frames that come out are exactly the true frames that were in time |
| PySession.LatePacketShiftsEpoch | aiopppp/aiopppp/session.py:425-430 | after a late packet of the epoch just left the next low-numbered packet is placed one epoch too far |
| PySession.LatePacketWitness | aiopppp/aiopppp/session.py:425-430 | the same on the indices 65534, 65536, 65535, 65537 |
| PySession.UnwrapperOfRun | aiopppp/aiopppp/session.py:422-430 | the session's epoch and last index after any run are those these statements are about |
| PySession.NearIsOrderly | aiopppp/aiopppp/session.py:411-416 | a run within 255 of its highest index and in no epoch already left is orderly |
| PyLosses.LostWrapStalls | aiopppp/aiopppp/session.py:111-143 | after a wrap that goes unnoticed, packets below the frame cut last, counted in the old epoch, bring no video out and leave the epoch as it was |
| PyLosses.OldPacketsCutNothing | aiopppp/aiopppp/session.py:111-119 | when the frame between the two highest boundaries is out, any packets below it publish nothing |
| PyLosses.LostWrapWitness | aiopppp/aiopppp/session.py:411-430 | a session with packets 64999, 65000, 65600, 65601, all starts, publishes the first frame only and files 65600 under 64 |
| CFrameWriter.FragmentWriter.HandlePacket | a9serv/pppp.c:442-516 | skip, gap, start, slot, completeness test and write, on the array of slots, as in the specification |
| CFrameWriter.FragmentWriter.ClearSlots | a9serv/pppp.c:478-482 | all slots empty after a start |
| CFrameWriter.SlotLimits | a9serv/pppp.c:485-506 | 32 slots of 2048 bytes: a packet beyond the slots moves on the index only, an oversized one ends the call, any other is stored unless its slot is taken |
| CFrameWriter.GapWaits | a9serv/pppp.c:466-467 | a gap without a start forgets the bytes counted and waits for 65535 |
| CFrameWriter.LengthIsSigned | a9serv/pppp.c:473 | the length field is a signed little-endian number |
| CCamera.StartIsParsed | a9serv/pppp.c:470-476 | of a start packet bytes 16 to 19 are the announced length and the bytes behind byte 31 the payload |
| CCamera.OthersAreParsed | a9serv/pppp.c:470-504 | a packet without the marker is all payload |
| CCamera.CameraIsExact | a9serv/pppp.c:470-476 | a camera that sends frames of 1 to 32 such packets sends what the fragment theorems ask for |
| CCamera.OnlySentFramesAreWritten | a9serv/pppp.c:438-516 | from packets on: a call that begins with an accepted start writes the payloads of single sent frames and nothing else |
| CWrites.EveryWriteSendsChain | a9serv/pppp.c:458-516 | from any initial state: a write after an accepted start sends consecutive packets' payloads from the start on and reaches the announced length; none happens after a gap |
| CWrites.GapSpoils | a9serv/pppp.c:458-468 | after a gap the counters cannot reach the sentinel 65535 before the next start |
| CTrueFrames.EveryWriteIsAFrame | a9serv/pppp.c:458-516 | against the sender's true indices every write is exactly one sent frame ending at the packet that triggers it |
| CTrueFrames.OnlyFramesAreWritten | a9serv/pppp.c:458-516 | a call that begins with an accepted start writes sent frames and nothing else, for any arrival |
| CTrueFrames.FrameInOrder | a9serv/pppp.c:486-516 | a frame arriving in order is written with its last packet and not before |
| CTrueFrames.StreamInOrder | a9serv/pppp.c:458-516 | an in-order stream is written frame by frame, each once, across any number of wraps |
| CLosses.NewerAcceptedExactly | a9serv/pppp.c:458-465 | a newer packet is accepted if and only if it is the next, or in the same index cycle and not above 65400 while the last index is below 32 |
| CLosses.OlderSkippedExactly | a9serv/pppp.c:458-465 | an older packet is skipped if and only if it is of the same index cycle, or above 65400 while the last index is below 32 |
| CLosses.RunFollowsTaken | a9serv/pppp.c:458-488 | over any run the writer's last index is that of the last true index that passes |
| CLosses.StallsExactly | a9serv/pppp.c:458-465 | nothing of a run is accepted if and only if none of its packets passes by the last index before it; then nothing is stored or written |
| CLosses.LossAtWrapStalls | a9serv/pppp.c:458-465 | when the packets up to and with the wrapping one are lost, all packets up to a whole cycle later are skipped, and the one after that is taken for the lost one |
| CLosses.StragglerStalls | a9serv/pppp.c:459-488 | a straggler from before the wrap, past the edge, is accepted, and all newer packets up to its own index are then skipped |
| CLosses.NextFrameWrittenIffStartPasses | a9serv/pppp.c:458-516 | after any loss the next whole frame is written if and only if its start passes; otherwise nothing of it is stored |
| CLosses.CallBeginsAtZero | a9serv/pppp.c:384 | a new call accepts no first packet but one with index 0 |
| CLosses.WrapLossWitness | a9serv/pppp.c:458-465 | a call with packets 0, 65400, 65537, 65600 writes two frames only |
| CLosses.StragglerWitness | a9serv/pppp.c:458-465 | a call in which packet 65530 after packet 65576 keeps packet 65577 from being written |
| Adpcm.AdpcmDecoder.DecodeNibble | bkcam-go/main.go:4423-4453 | one nibble: index clamped to 0..88, step looked up after the move, value clamped to 16 bits |
| Adpcm.AdpcmDecoder.Decode | bkcam-go/main.go:4413-4458 | state and output of a whole input, four bytes per input byte |
| Adpcm.AdpcmGlobals.Decode | a9serv/pppp.c:283-334 | from the same state the C output is the Go output cut to what fits, and nothing behind it is touched |
| Adpcm.DecodeConcatenation | bkcam-go/main.go:4413-4458 | decoding a concatenation is decoding the parts with the state carried over |
| Adpcm.DifferenceError | bkcam-go/main.go:4433-4442 | the shift-and-add difference falls short of (2m+1)*step/8 by 0 to 17/8 |
| Adpcm.MovesBySign | bkcam-go/main.go:4443-4452 | away from the limits a nibble below 8 moves the value up by (2m+1)*step/8 and one from 8 on down, short by at most 17/8; at the limits 32767 and -32768 it stops |
| Adpcm.IndexMoves | bkcam-go/main.go:4423-4429 | magnitudes below 4 lower the index by one, the others raise it by 2, 4, 6 or 8, within 0 to 88 |
| Adpcm.StepSizesLow | bkcam-go/main.go:381-389 | the step sizes 0 to 29 written out |
| Adpcm.StepSizesMiddle | bkcam-go/main.go:381-389 | the step sizes 30 to 59 written out |
| Adpcm.StepSizesHigh | bkcam-go/main.go:381-389 | the step sizes 60 to 88 written out |
| Adpcm.StepAfterMove | bkcam-go/main.go:4408-4432 | a decoder starts at index 0 and value 0 and looks its step up after the index has moved |
| Adpcm.TwoNibbles | bkcam-go/main.go:4413-4458 | the four output bytes of the input byte 7f: upper nibble first, low byte first |
| Adpcm.FittingIsMost | a9serv/pppp.c:290 | the C decoder stops exactly when input or room for a sample is used up |
| JsAdpcm.JsDecode | PPPP/adpcm.js:16-91 | the JavaScript loop computes its specification |
| JsAdpcm.JsLagsOneStep | PPPP/adpcm.js:52-78 | it moves through the same step indices and applies each one nibble later |
| JsAdpcm.TwoNibbles | PPPP/adpcm.js:16-91 | the four output bytes of the input byte 7f in JavaScript |
| JsAdpcm.JsAgreesOnlyOnEmpty | PPPP/adpcm.js:16-91 | its output equals that of the Go decoder, started afresh, if and only if the input is empty |
| MediaFrames.ParseAudioFrames | bkcam-go/main.go:4156-4181 | the scanning loop returns the frames that tile the packet, else the packet as one payload |
| MediaFrames.ParseOfWire | bkcam-go/main.go:4156-4181 | parsing serialised frames gives them back whatever the payload bytes |
| MediaFrames.IndexedIffWire | bkcam-go/main.go:4173-4181 | indexed frames are returned if and only if headers and payloads tile the packet; otherwise the fallback |
| MediaFrames.UnmarkedIsPlain | bkcam-go/main.go:4180 | a packet without the four magic bytes is one payload and the decoder goes on |
| MediaFrames.LegacyPayload | bkcam-go/main.go:4177-4179 | behind a 32-byte header that begins 55 aa 15 a8 aa 01 is the payload, with a reset, unless the packet tiles |
| MediaFrames.ShortIsPlain | bkcam-go/main.go:4177-4180 | a packet below 32 bytes is taken whole |
| AudioPath.SerialOrder | bkcam-go/main.go:4183-4185 | the 32-bit comparison is that of the true numbers when they are less than half the space apart |
| AudioPath.SerialOrderExactly | bkcam-go/main.go:4183-4185 | for any true numbers the comparison holds if and only if their wrapped difference lies strictly between 0 and half the space |
| AudioPath.SerialOrderEnds | bkcam-go/main.go:4183-4185 | so a frame newer by half the space is taken for an older one |
| AudioPath.AudioReceiver.HandleAudio | bkcam-go/main.go:4134-4152 | last index, decoder state and PCM after one packet |
| AudioPath.EveryNewFrameDecodedAlone | bkcam-go/main.go:4134-4185 | the PCM of a whole run is that of exactly the frames newer than all before them, each decoded from reset |
| AudioPath.PlainPacketsAreOneStream | bkcam-go/main.go:4134-4152 | packets without a header are decoded as one stream, with the state carried and no index remembered |
| AudioPath.LegacyStep | bkcam-go/main.go:4134-4152 | a packet behind a header of the older kind is decoded from reset |
| Newest.RecordsIncrease | bkcam-go/main.go:4137-4143 | accepted frames are strictly increasing and end in the newest received |
| Newest.InOrderKeepsAll | bkcam-go/main.go:4137-4143 | when nothing is late or repeated nothing is skipped |
| Newest.NarrowIsWindowed | bkcam-go/main.go:4183-4185 | numbers inside half the space satisfy the window condition |
| JsAudio.AudioChannel.HandleAudio | PPPP/pppp.js:312-328 | last index and decoded frame after one packet |
| JsAudio.IndexOrderExactly | PPPP/pppp.js:332-336 | for any true indices the comparison holds if and only if their wrapped difference lies strictly between 0 and half the space |
| JsAudio.IndexOrder | PPPP/pppp.js:332-336 | so it is that of the true indices within half the space |
| JsAudio.NewPacketsArePlayed | PPPP/pppp.js:312-336 | over a whole run exactly the packets newer than all before them are played, each decoded on its own |
| JsAudio.SoundExactly | PPPP/pppp.js:315-321 | a header of 32 bytes that begins 55 aa 15 a8 aa 01 comes off, other packets stay whole |
| CipherForms.Encrypt | bkcam-go/main.go:4380-4390 | Go's encryption is the common function |
| CipherForms.DecryptInto | bkcam-go/main.go:4397-4406 | Go's decryption into a given buffer is the common function and leaves the rest of the buffer alone |
| CipherForms.KeyFromPSK | bkcam-go/main.go:4369-4378 | the key loop computes the common key function |
| CipherForms.JsEncrypt | PPPP/crypt.js:33-50 | the JavaScript encryption is the common function of the normalised key |
| CipherForms.JsDecrypt | PPPP/crypt.js:33-64 | likewise decryption |
| CipherForms.NormalizedKeys | PPPP/crypt.js:31-37 | a key is taken as it is, a string gives its key, and nothing or the empty string that of "camera" |
| CipherForms.Xor1Encode | aiopppp/aiopppp/encrypt.py:34-41 | the Python encoder is the common function under the key of "camera" |
| CipherForms.Xor1Decode | aiopppp/aiopppp/encrypt.py:23-31 | likewise the decoder |
| CipherForms.EncodeInPlace | a9serv/cipher.c:26-36 | C's in-place encoder is the common function under the key of "SHIX" |
| CipherForms.DecodeInPlace | a9serv/cipher.c:38-49 | likewise the decoder, which reads each byte before overwriting it |
| Cipher.EnciphersUnique | bkcam-go/main.go:4380-4406 | plain and enciphered form determine each other under a byte-wise relation |
| Cipher.CameraAnswer | bkcam-go/main.go:4380-4390 | f1 30 00 00 under the key of "camera" is 2c ba 5f 5d |
| Cipher.ShixAnswer | a9serv/cipher.c:26-36 | f1 30 00 00 under the key of "SHIX" is 9f a1 ee b9 |
| Cipher.TableFrom00 | bkcam-go/main.go:83-100 | the table entries 00 to 1f written out |
| Cipher.TableFrom20 | bkcam-go/main.go:83-100 | the table entries 20 to 3f written out |
| Cipher.TableFrom40 | bkcam-go/main.go:83-100 | the table entries 40 to 5f written out |
| Cipher.TableFrom60 | bkcam-go/main.go:83-100 | the table entries 60 to 7f written out |
| Cipher.TableFrom80 | bkcam-go/main.go:83-100 | the table entries 80 to 9f written out |
| Cipher.TableFromA0 | bkcam-go/main.go:83-100 | the table entries a0 to bf written out |
| Cipher.TableFromC0 | bkcam-go/main.go:83-100 | the table entries c0 to df written out |
| Cipher.TableFromE0 | bkcam-go/main.go:83-100 | the table entries e0 to ff written out |
| Cipher.DecryptUndoesEncrypt | bkcam-go/main.go:4380-4406 | decryption undoes encryption for every key and buffer |
| Cipher.EncryptUndoesDecrypt | bkcam-go/main.go:4380-4406 | encryption undoes decryption for every key and buffer |
| Cipher.DecryptIsLocal | bkcam-go/main.go:4397-4406 | plaintext from a position on depends on ciphertext from one byte earlier only |
| Cipher.CorruptedByte | bkcam-go/main.go:4397-4406 | a corrupted byte always corrupts its own plaintext byte and at most the next |
| Cipher.KeyClosedForm | bkcam-go/main.go:4369-4378 | the key is sum, minus sum, sum of thirds and exclusive or; the first two add up to 0 modulo 256 |
| Cipher.KeyIgnoresOrder | PPPP/crypt.js:20-29 | permuting the characters does not change the key |
| Cipher.CameraKey | aiopppp/aiopppp/encrypt.py:20 | the constant Python key is the key of "camera" |
| Cipher.ShixKey | a9serv/cipher.c:23-24 | the constant C key is the key of "SHIX" |
| BitXor.XorTwice | a9serv/cipher.c:33 | combining with the same byte twice cancels |
| GoCodec.ParseUndoesBuild | bkcam-go/main.go:4324-4367 | a built data packet parses to its channel, index and data, with a 16-bit length field |
| GoCodec.BuildUndoesParse | bkcam-go/main.go:4356-4367 | building again gives the same bytes exactly for whole data packets with a true length and the data marker |
| GoCodec.DrwBytes | bkcam-go/main.go:4324-4335 | one data packet byte for byte |
| GoCodec.ShortPackets | bkcam-go/main.go:4356-4361 | below four bytes, or with another first byte, nothing is parsed; below eight, type and size only |
| GoCodec.Sender.SendDRWPacket | bkcam-go/main.go:4324-4354 | the datagram sent and the counter after it, wrapping at 32 bits |
| GoCodec.OneByOne | bkcam-go/main.go:4324-4335 | sending one more packet extends the datagram list, also after the counter has wrapped |
| GoCodec.EveryMessageReceived | bkcam-go/main.go:4324-4367 | the k-th datagram is received as the k-th message with consecutive 16-bit indices |
| GoClient.Receiver.HandleDatagram | bkcam-go/main.go:4122-4154 | decrypt, parse and dispatch on the channels, with the two assemblers' states updated in place |
| GoClient.VideoIsItsOwn | bkcam-go/main.go:4086-4154 | for any mix of datagrams the video output is that of the video packets alone |
| GoClient.AudioIsItsOwn | bkcam-go/main.go:4086-4154 | likewise the audio output |
| GoClient.CommandsAreTheirOwn | bkcam-go/main.go:4124-4129 | the commands handed on are the texts behind 06 0a and six more bytes of the packets of channel 0, in order |
| GoClient.OthersAreIgnored | bkcam-go/main.go:4086-4124 | what does not parse, is no data packet or is of a channel above 2 changes nothing and hands nothing on |
| GoClient.ChannelsExactly | bkcam-go/main.go:4110-4124 | what a channel gets are the data packets of type d0 that name it |
| GoClient.WindowsReachTheViewer | bkcam-go/main.go:4086-4279 | the delivery result from datagrams: windows sealed and mixed with anything else contribute exactly what they must, the last possibly pending |
| GoClient.FramesReachTheViewer | bkcam-go/main.go:4122-4279 | without loss the sealed and mixed frames come out byte for byte, in order, and none else |
| GoClient.SoundReachesTheListener | bkcam-go/main.go:4086-4185 | media frames packed, sealed under any packet indices and mixed with anything else are heard as exactly the new ones, each decoded alone |
| PyPackets.XqRoundTrip | aiopppp/aiopppp/packets.py:74-81 | each scrambling undoes the other for every byte string and every integer shift |
| PyPackets.XqBytes | aiopppp/aiopppp/packets.py:74-76 | byte by byte: the lowest bit is turned over and the bytes are turned to the left by the shift |
| PyPackets.TypesExactly | aiopppp/aiopppp/const.py:7-31 | the packet types written out |
| PyPackets.RefusedExactly | aiopppp/aiopppp/packets.py:287-302 | what is refused, in order, and that other types always parse |
| PyPackets.PayloadExactly | aiopppp/aiopppp/packets.py:291-305 | the payload is what follows the first four bytes, except for an alive packet of another length |
| PyPackets.DrwExactly | aiopppp/aiopppp/packets.py:229-258 | what a data packet is taken for, by its first two payload bytes, and where it falls back |
| PyPackets.OthersSurvive | aiopppp/aiopppp/packets.py:20-50 | packets that are no commands survive printing and parsing |
| PyPackets.PrintsExactly | aiopppp/aiopppp/packets.py:186-197 | a packet is printed if and only if its lengths fit their 16-bit fields |
| PyPackets.BinaryLayout | aiopppp/aiopppp/packets.py:186-197 | the printed header field by field |
| PyPackets.ParseUndoesPrint | aiopppp/aiopppp/packets.py:229-305 | index, command, token and payload of a binary command with a 4-byte token survive printing and parsing |
| PyPackets.PrintUndoesParse | aiopppp/aiopppp/packets.py:229-258 | printing a parsed binary command gives the same bytes if and only if the fields the parser ignores are genuine and the token is whole |
| PyPackets.PunchAgain | aiopppp/aiopppp/packets.py:26-36 | making a punch packet from a parsed name gives the same bytes if and only if the payload has 20 bytes |
| PyPackets.NameAgain | aiopppp/aiopppp/packets.py:217-226 | a device name survives a punch packet if and only if the prefix has four characters and the suffix at most eight, not ending in a zero |
| PyPackets.PunchLayout | aiopppp/aiopppp/packets.py:217-226 | when a punch packet is made, and its 20 bytes: name, big-endian number, ending, filled with zeros |
| PyPackets.NameExactly | aiopppp/aiopppp/packets.py:30-36 | when a name is read, and what it is |
| PyPackets.NumbersAreBigEndian | aiopppp/aiopppp/packets.py:34 | the number is read most significant byte first, in eight bytes at most |
| DropOldChannel.Channel.SendDropOld | bkcam-go/main.go:4556-4571 | without interruption: the item is appended, and the oldest makes room if it must |
| DropOldChannel.UninterruptedSteps | bkcam-go/main.go:4556-4571 | the three steps of the interleaving model, taken without a break, are that call |
| DropOldChannel.SecondSendSucceeds | bkcam-go/main.go:4556-4571 | one publisher, any consumer, any capacity from 1: the second send never fails |
| DropOldChannel.NewestGetsThrough | bkcam-go/main.go:4556-4571 | consumed and queued items are strictly increasing and between publishes end in the newest |
| DropOldChannel.OnlyTheOldestIsLost | bkcam-go/main.go:4563-4566 | an item is lost only by taking the oldest out of a full channel |
| DropOldChannel.EveryItemInOnePlace | bkcam-go/main.go:4556-4571 | for any number of publishers every item is in exactly one place |
| DropOldChannel.MorePublishersLoseTheNewer | bkcam-go/main.go:4556-4571 | for every number of publishers from two on, and every capacity, a run throws the newer item away |
| CommandWaiters.CommandTable.Register | bkcam-go/main.go:3054-3059 | a waiter is appended to its command's list and the other lists stay |
| CommandWaiters.CommandTable.RemoveCommandWaiter | bkcam-go/main.go:3081-3094 | the first occurrence is removed, and an empty list with it; the other lists stay |
| CommandWaiters.CommandTable.Snapshot | bkcam-go/main.go:2731-2740 | the waiters of a command are copied and, for numbers from 0, taken out; the other lists stay |
| CommandWaiters.WithoutFound | bkcam-go/main.go:3085-3090 | removing a waiter keeps the others in order |
| CommandWaiters.EveryCallServedOnceAtMost | bkcam-go/main.go:3041-3094 | in every interleaving: no send refused, at most one per call, only for its own command, and a finished call is in no list |
| CommandWaiters.FinishedCallsLeaveNothing | bkcam-go/main.go:3081-3094 | when all calls of a command have finished the table has no entry for it |
| CommandWaiters.AnswerReachesTheWaiting | bkcam-go/main.go:2727-2748 | a call listed when an answer comes gets it once its sends are made, whatever happens in between |
| CommandWaiters.AnswerReachesNobodyElse | bkcam-go/main.go:2727-2748 | an answer is sent to calls of its command only |
| CommandWaiters.RegisteredIsListed | bkcam-go/main.go:3053-3059 | a registered call stands at the end of its command's list |
| CommandWaiters.CallsCanFinish | bkcam-go/main.go:3060-3078 | from every phase a call's own steps lead to its end, and take it out of the table where it gave up |
| CommandWaiters.DeliveriesCanFinish | bkcam-go/main.go:2741-2747 | all sends of an answer can be made |
| CommandWaiters.NegativeCommandRefused | bkcam-go/main.go:2737-2739 | for every negative number a run in which a send is refused |
| CommandWaiters.ImpatientCallStays | bkcam-go/main.go:3064-3066 | for every timeout up to 0 a run that leaves a finished call in the table |
| Recovery.CameraRuntime.RestartSession | bkcam-go/main.go:2827-2843 | accepted or throttled by the time the caller read before the lock; once accepted, any read within the cooldown is throttled |
| Recovery.CameraRuntime.NudgeStreams | bkcam-go/main.go:2930-2947 | the guard and the three times set; nudges and video requests are then held back for their windows |
| Recovery.CameraRuntime.RequestStreams | bkcam-go/main.go:2961-2977 | which streams are requested and which times are set; a forced video request always goes out |
| Recovery.CameraRuntime.RequestAudioOnly | bkcam-go/main.go:3003-3012 | likewise for audio alone |
| Recovery.CameraRuntime.StartSession | bkcam-go/main.go:2650-2660 | the slot is filled only when empty |
| Recovery.CameraRuntime.StopSession | bkcam-go/main.go:2813-2825 | the session is handed to one caller for closing |
| Recovery.RestartsSpaced | bkcam-go/main.go:2827-2838 | in every run consecutive restarts are at least 5 s apart by their callers' clocks |
| Recovery.RestartsTakeTime | bkcam-go/main.go:2827-2838 | n restarts take at least 5(n-1) s |
| Recovery.EffectsApart | bkcam-go/main.go:2827-2838 | in every run, of any two restarts the later takes effect at least 5 s after the earlier, less the time the earlier caller had waited for the lock |
| Recovery.ClosestRestarts | bkcam-go/main.go:2827-2838 | after every restart there is a run in which the next follows as closely as that bound allows |
| Recovery.EffectsApartExactly | bkcam-go/main.go:2827-2838 | in every continuation all later restarts take effect at least 5 s after the present one if and only if its caller had not waited |
| Recovery.RestartsMayCoincide | bkcam-go/main.go:2828-2836 | two restarts that take effect at the same moment |
| Recovery.NudgesSpaced | bkcam-go/main.go:2930-2947 | between configuration updates nudges are at least 8 s apart |
| Recovery.RequestsSparing | bkcam-go/main.go:2961-3012 | a request that is not forced comes at least 2 s after every earlier request or nudge of its kind |
| Recovery.RestartsWhenDue | bkcam-go/main.go:2827-2838 | after any run a restart goes through if and only if there was none or 5 s have passed since the last |
| Recovery.NudgesWhenDue | bkcam-go/main.go:2930-2947 | a nudge goes out if and only if a session is connected and 8 s have passed since the last one after the last update |
| Recovery.RequestsWhenDue | bkcam-go/main.go:2961-3012 | video and audio are requested if and only if forced, or wanted and 2 s after the last request or nudge of the kind |
| Recovery.OpensWhenFree | bkcam-go/main.go:2650-2660 | a session is opened if and only if it may be and none is open, and what is open is closed |
| Recovery.ConnectedAsTold | bkcam-go/main.go:2667-2674 | a session counts as connected from its callback on until it is stopped or updated |
| Recovery.SlotHoldsTheOnlyOpenSession | bkcam-go/main.go:2650-2660 | sessions are closed once each in order, all but the one in the slot |
| Health.HealthLocked | bkcam-go/main.go:3548-3617 | the chain of early returns computes the classification sorted by outcome, and the text that goes with it |
| Health.AlwaysCoherent | bkcam-go/main.go:2662-2748 | in every run media counts as traffic: the last traffic is never older than the last frame or sound |
| Health.ConnectedExactly | bkcam-go/main.go:3561-3616 | in every reachable state with a connected session: offline without traffic for 45 s, else online if what is wanted was just seen, else by how long ago wanted media was seen or how old the connection is |
| Health.UnconnectedExactly | bkcam-go/main.go:3549-3560 | without one: connecting within 20 s of a first start, else stale within 45 s of a frame, else offline |
| Health.DemandExactly | bkcam-go/main.go:3570 | video is wanted by clients, and for 10 s after a snapshot was asked for |
| Health.OnlineExactly | bkcam-go/main.go:3548-3617 | so "online" holds if and only if a connected session has just seen what is wanted: a frame in 8 s, else sound in 4 s, else traffic in 15 s |
| Health.CallbacksRecord | bkcam-go/main.go:2650-2748 | what each callback leaves behind, with the clock reading it was entered with |
| Health.OthersRecord | bkcam-go/main.go:2612-2641 | what clients, the supervisor and an update leave behind |
| Health.FrameShowsOnline | bkcam-go/main.go:2679-2701 | a frame brings a connected session online for 8 s where video is wanted |
| Health.OnlineMeansTraffic | bkcam-go/main.go:3590-3612 | "online" implies traffic within 15 s |
| Health.IncoherentStateShowsOnline | bkcam-go/main.go:3588-3608 | without the invariant the classification alone does not imply it |
| PeerPinning.PPPP.HandleDatagram | bkcam-go/main.go:4068-4114 | acceptance, pinning, echo and connected callback for one datagram |
| PeerPinning.HandledExactly | bkcam-go/main.go:4068-4114 | a datagram is handled if and only if it parses and comes from the pinned peer, or, before one is pinned, from the expected address or from any when none is expected |
| PeerPinning.ExactlyTheAcceptableAreHandled | bkcam-go/main.go:4068-4114 | in every session the packets handled are exactly the acceptable datagrams, in order, and the first acceptable ready packet pins its sender |
| PeerPinning.SessionExplained | bkcam-go/main.go:4068-4114 | every handled packet comes from the expected address and from the pinned peer; it connects exactly when it is the first ready, and is echoed exactly when it is one of the first five punches |
| PeerPinning.PeerStaysPinned | bkcam-go/main.go:4068-4114 | echoes are min(5, punches), one callback at most, and a pinned peer stays and is the only one heard |

## Left out

- Sockets, select, asyncio, goroutine and timer runtime: packets, clock readings and callbacks are inputs of the models.
- Acknowledgements, keep-alives and close packets are not modelled; they do not touch the assemblers.
- The camera is a ghost sender. Frames may have 1 to 129 packets (Go) or fit the 32 slots (C), and continuation payloads do not begin with the marker.
- GoDelivery.Delivery: start packets are neither lost nor moved, and a repeated start opens a new window; packets of other frames inside a window, and lost starts, are treated by GoTrueFrames and GoFramesInTime.
- GoFramesInTime.FullIffInTime: continuation packets carry at least one byte, and trimmed frames are not characterised beyond their truth.
- GoTrueFrames.AllEmissionsAreTrue: packets are near the last start that arrived before them, at most 65407 behind and less than 65536 ahead; further away the 16-bit index says nothing.
- CFrameWriter.FragmentWriter.HandlePacket: the payload length is that of the bytes received; a length field that disagrees with the datagram, and the stale buffer bytes it would expose, are not modelled, nor are resends, acknowledgements and HTTP text. Payloads are not empty.
- CLosses.RunFollowsTaken: packets are less than 65535 behind and 65536 ahead of the last accepted one.
- CTrueFrames.EveryWriteIsAFrame: packets are less than 65536 indices away from the last accepted one; further away the 16-bit index says nothing.
- PySession.SessionUnwraps: the session is orderly; that this is exactly when its indices are unwrapped and tracked is PySession.TrueThroughoutExactly.
- PySession.Session.HandleDrw: the asyncio queue between the two halves is composition, so cutting happens at once.
- CipherForms.KeyFromPSK: the string is its bytes; the text encodings of Go and JavaScript differ outside ASCII.
- AudioPath.AudioReceiver.HandleAudio: the PCM is that before the audio filter, which keeps its length and is floating-point signal processing.
- MediaFrames.ParseAudioFrames: Go's `int` is taken as 64 bits, where the length arithmetic cannot overflow.
- PyPackets.ParseUndoesPrint: the numbered commands, their destinations and the JSON library's verdict are parameters; a JSON command keeps its text and is not printed.
- PyPackets.NameAgain: the serial is a number; its decimal text with leading zeros is not modelled.
- CommandWaiters.EveryCallServedOnceAtMost: configuration updates, which replace the table, are not among the steps.
- Recovery.RequestsSparing: a request decided without a session is recorded though nothing is sent, as in the source; the delayed sends of a nudge are not steps.
- Health.AlwaysCoherent: the callbacks are steps on values; their metrics, logs and counters are left out.
- Health.OnlineExactly: one receive loop at a time, as within one session; one clock reading per classification.
- PeerPinning.PPPP.HandleDatagram: addresses are compared as values.
- JPEG decoding, overlays, HTTP, configuration, the user interface, YAML templates, binary_camera.py, server.js, the Lua dissector and firmware notes: no protocol state, or copies of logic modelled here.
- Serving C audio (`send_audio`), device status parsing and pass-through commands would only add easy members.
