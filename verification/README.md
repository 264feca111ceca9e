# FoxESS local cloud: a verified model

A model, in Dafny 4.11, of the gateway that stands between FoxESS micro-inverters and the
FoxESS cloud, with proofs of what its five cores are for:

1. **Setpoints.** Home Assistant commands become Modbus writes under four-byte transaction ids, confirmed only by
   their own acknowledgement and re-applied after a reconnection (`server.py`, `local_control.py`).
2. **Frames.** The CRC, the frame codec and the deframer that resynchronises over a growing buffer (`protocol.py`).
3. **Firmware.** The metadata codec, the receiver, the stop-and-wait sender, and the two joined (`firmware.py`).
4. **Relay.** Find-and-delete of the gateway's own frames from the bytes it forwards (`server.py`).
5. **Tables and traces.** Readback correlation, stale telemetry, fault events, scan responses.

`dafny verify dfyconfig.toml` checks everything.

## How to read it

Objects that the program updates in place are classes (`StreamBuffer`, `Pump`, `UpstreamPump`, `Control`, `Future`,
`Books`, `Handler`, `FirmwareCapture`, `FirmwareUploader`, `Correlation`, `Watch`, `FaultTracker`). Each of their
methods is proved equal to a function on values (`Extract`, `Forwarded`, `BeginWrite`, `Command`, `Capture.Step`,
`OnClientFrame`, ...), and the theorems are about those functions and about all runs of them. The loops of the source
(`crc16_le`, `extract_frames`, the relay's deletion loop, `parse_modbus_command`, the draining of the progress queue,
the simulated progress, the staleness check, `parse_scan_response`) are loops here, with invariants. Points at which a
coroutine waits are the boundaries between steps.

| Module | What it holds |
|---|---|
| `Bytes`, `Search` | bytes, big-endian words, `bytes.find` |
| `Register`, `Crc` | the CRC-16/MODBUS register as a natural number, and its error detection |
| `Frames`, `Deframer`, `Chunking`, `FrameStream` | the envelope, the resynchronising loop, division of a stream into reads, round trips |
| `Subsequence`, `Relay`, `RelayFrames` | find-and-delete on the bytes of a read, whole runs from inverter to cloud, and what the other side deframes of one read |
| `RelayRuns`, `RelayDivisions` | what it deframes of a whole run, whose reads end anywhere inside frames, and of every division into reads |
| `Upstream` | the other direction: handlers that can fail, and the firmware receiver |
| `CaptureMode` | the promise that no firmware reaches the inverter, over whole runs, and where it fails |
| `Modbus`, `LocalControl`, `Ledger` | the PDUs, the injected requests and their ids, the record of commands |
| `Setpoint`, `SetpointHandler`, `SetpointSafety`, `SetpointIds` | the protocol as a transition system, the session's coroutines, the proofs |
| `Firmware`, `Capture`, `CaptureRuns` | variants and metadata, the receiver, its runs |
| `Uploader`, `UploadRuns`, `Transfer` | the sender, its runs, sender and receiver over a reliable channel |
| `Readback`, `Staleness`, `Faults`, `ScanResponse` | the smaller machines |

## What the proofs assume

Setpoints (`Setpoint.Enabled`): percentages are 0 to 100; only the newest connection of a serial reaches the inverter,
and a new connection starts with empty channels; nobody else writes the register; an inverter acknowledges only writes that
it took, under their own ids and on their own connection; an id is not issued while an earlier request of the session had it,
which `SetpointIds.IdsStayFresh` shows for every session of fewer than 65536 injections. Commands, refusals, answers, timeouts,
failures to send and reconnections otherwise come in any order, and acknowledgements late, repeatedly, in any order or never.

Bytes are integers from 0 to 255 and the CRC register is a natural number: exclusive or and shift are defined on numbers.

## What the code does not do

Each of these is a theorem below, about the code as it is.

- A stream of frames in which some read ends between the two start bytes of a frame does not come out whole, because the
  buffer is cleared when it holds no whole marker (`foxess_local_cloud/protocol.py:84-86`): `FrameStream.SurvivesIff`; and
  for any bytes, `Chunking.CutInvisibleIff`.
- Without a positive `write_timeout_seconds` a lost write counts as applied: `SetpointSafety.SafeIffTimed`.
- A 7f frame from the cloud with six bytes and function 0x10 counts as a command but decodes to nothing, and the lookup of its
  function fails (`foxess_local_cloud/server.py:937-939`): the read is lost with all its frames, and the relay ends.
  `Modbus.UndecodableCommand`, `Upstream.UndecodableReadLost`, and exactly when, `Upstream.ReadLostIff` and
  `Upstream.TransparentIff`.
- After an accepted announcement, chunks without data use up the two-byte chunk numbers: at number 65535 the next
  acknowledgement cannot be written (`foxess_local_cloud/firmware.py:385`), and the relay ends though every frame was
  decodable: `CaptureMode.NumbersRunOut`; exactly on which frames the receiver fails, `Upstream.RaisesIff`.
- Find-and-delete can take an earlier copy of an owned frame's bytes, so that the frame itself is forwarded:
  `Relay.CopyIsForwarded`, `RelayFrames.OwnedFrameArrives`. Exactly when not, in one read: `RelayFrames.OthersArriveIff` and
  `RelayFrames.UnownedArriveIff`; over every division of a stream of frames into reads: `RelayDivisions.ArriveAlwaysIff`.
- Capture mode promises that no firmware frame reaches the inverter (`foxess_local_cloud/firmware.py:305-309`). For streams
  of decodable frames, while chunk numbers last and no read ends between two start bytes, the promise is kept in every
  division into reads exactly when, from any frame on, no firmware frame is disturbed by the other frames in front of it
  (`CaptureMode.PromiseIff`), which holds when the bytes of none occur among them (`CaptureMode.KeptWithoutCopies`). For
  some three frames it is broken (`CaptureMode.FirmwareArrives`, `CaptureMode.PromiseFails`).
- The comment at `foxess_local_cloud/firmware.py:414-415` says that the cloud can retry after a failed save. The chunk
  counter has already moved past the last chunk, so a repeated last chunk is answered with a request for one that does not
  exist and is never saved: `CaptureRuns.NoSecondChance`.
- A small image can hold a first chunk that the receiver takes for metadata, and then the upload fails:
  `Transfer.TransferIff`, `Transfer.AmbiguousUploadFails`.
- `handle_client_frame` does not look at `valid_crc`, so a damaged frame can acknowledge: `UploadRuns.DamagedFrameCompletes`;
  exactly which frames complete a request, `UploadRuns.CompletesIff`.
- A readback response that comes while its request still drains, when draining then fails, is followed by an error for the
  same readback (`foxess_local_cloud/server.py:658-674`): `Readback.TwoResults`; exactly when an id that the cloud does not
  use gets one result, `Readback.ExclusivelySettled`.

## Model

| member | source | states |
|---|---|---|
| Crc.ComputeCrc | foxess_local_cloud/protocol.py:8-17 | the nested loop computes the CRC that the theorems below are about |
| Crc.SerialRefinement | foxess_local_cloud/protocol.py:10-16 | feeding bytes is feeding their bits, lowest first, to a one-bit shift register with feedback 0xA001 |
| Crc.FeedLinear | foxess_local_cloud/protocol.py:12-16 | the register is linear over exclusive or, in state and input together |
| Crc.BitBurst | foxess_local_cloud/protocol.py:8-17 | bit streams that differ, and only within 16 consecutive bits, never leave the same register |
| Crc.BurstDetected | foxess_local_cloud/protocol.py:8-17 | two messages of one length that differ only within 16 consecutive bits, anywhere, have different CRCs |
| Crc.AdjacentBytesDetected | foxess_local_cloud/protocol.py:8-17 | messages that differ only in two adjacent bytes have different CRCs |
| Crc.OddErrorDetected | foxess_local_cloud/protocol.py:8-17 | messages that differ in an odd number of bits have different CRCs |
| Crc.ZeroResidue | foxess_local_cloud/protocol.py:8-17 | continuing over two more bytes leaves zero exactly when they are the CRC of the body |
| Crc.NoBytes | foxess_local_cloud/protocol.py:9-17 | no bytes have the CRC FF FF, the initial register |
| Crc.SingleBit | foxess_local_cloud/protocol.py:12-16 | a single bit that is mixed in last leaves A001: with linearity and the initial value this fixes the whole CRC |
| Frames.MakeThenParse | foxess_local_cloud/protocol.py:52-77 | a made frame parses to its own fields, with a valid CRC |
| Frames.Layout | foxess_local_cloud/protocol.py:52-77 | where each field of a made frame lies, the length high byte first, and what its CRC covers |
| Frames.ParsedLayout | foxess_local_cloud/protocol.py:57-77 | whatever parses is the concatenation of its parsed fields |
| Frames.ValidIffReencodes | foxess_local_cloud/protocol.py:52-77 | the CRC of a parsed frame is valid exactly when `make_frame` of its fields gives its bytes back |
| Frames.ValidIffZeroResidue | foxess_local_cloud/protocol.py:66-76 | it is valid exactly when the register ends at zero over body and CRC |
| Frames.CorruptionDetected | foxess_local_cloud/protocol.py:57-77 | a valid frame damaged within 16 consecutive bits of body and CRC is never valid |
| Search.FindIs | foxess_local_cloud/server.py:858 | `find` returns the place that matches and has no earlier match |
| Deframer.FirstStartMeans | foxess_local_cloud/protocol.py:83-87 | the lesser of the two marker searches is the first place where a marker byte is repeated |
| Deframer.StreamBuffer.DropToMarker | foxess_local_cloud/protocol.py:83-89 | the buffer starts at its first marker, or is cleared if it has none |
| Deframer.StreamBuffer.CutFront | foxess_local_cloud/protocol.py:90-104 | what one iteration removes from the buffer and whether the loop goes on |
| Deframer.StreamBuffer.ExtractFrames | foxess_local_cloud/protocol.py:80-108 | the loop in place terminates, and frames and buffer are those of `Extract` |
| Deframer.TurnConserves | foxess_local_cloud/protocol.py:82-108 | every continuing iteration removes at least two bytes from the front and loses none |
| Deframer.SplitConserves | foxess_local_cloud/protocol.py:80-108 | skipped bytes, whole frames and the rest concatenate to the input: frames are disjoint slices in order |
| Deframer.ParseNeverFails | foxess_local_cloud/protocol.py:105-108 | the `ValueError` branch is never taken |
| Deframer.LeftoverBounded | foxess_local_cloud/protocol.py:80-108 | the buffer that is left is a suffix of the input of at most 4095 bytes |
| Chunking.SkipsToStart | foxess_local_cloud/protocol.py:83-89 | the deframer skips to the first two equal marker bytes; without any it returns and keeps nothing |
| Chunking.WaitsForRest | foxess_local_cloud/protocol.py:90-100 | behind a marker, a header or a frame that is not all there is kept as it is |
| Chunking.DropsVoidMarker | foxess_local_cloud/protocol.py:94-98 | a length above 4083 voids the marker only: extraction goes on two bytes further, so a frame right behind is found |
| Chunking.CutsFrame | foxess_local_cloud/protocol.py:93-108 | a complete frame with the right end comes first and the rest is extracted behind it; with the wrong end it is dropped as a whole |
| Chunking.ResumeFromResidual | foxess_local_cloud/protocol.py:80-108 | extracting from what the loop left, with more bytes behind, continues as if all had come at once |
| Chunking.ChunkIndependence | foxess_local_cloud/protocol.py:80-108 | two reads give the frames and the buffer of one, unless a half marker was cleared and its twin follows |
| Chunking.CutInvisibleIff | foxess_local_cloud/protocol.py:84-86 | a cut after some bytes is invisible for every continuation exactly when no half marker was cleared |
| Chunking.RunIsExtract | foxess_local_cloud/server.py:845-849 | any number of reads give the frames and the buffer of the whole stream, if no cut is bad |
| FrameStream.StreamRoundTrip | foxess_local_cloud/protocol.py:52-108 | frames sent back to back, with any payloads of up to 4083 bytes, come out exactly, and the buffer is empty |
| FrameStream.FramesInFront | foxess_local_cloud/protocol.py:80-108 | they come out whatever follows them, and what follows is treated as if alone |
| FrameStream.SurvivesIff | foxess_local_cloud/protocol.py:80-108 | divided into reads, they come out exactly if and only if no read ends between a frame's two start bytes |
| FrameStream.FramesDetermineStream | foxess_local_cloud/protocol.py:80-108 | frames that account for every byte of a stream determine it |
| Relay.Strip | foxess_local_cloud/server.py:852-860 | the deletion loop computes `Filtered` of frames and ownership answers |
| Relay.Pump.OnRead | foxess_local_cloud/server.py:844-877 | one read from the inverter, whose handlers do not fail: what is forwarded, and what stays in the buffer |
| Relay.FilterConserves | foxess_local_cloud/server.py:852-860 | on any bytes every owned frame is found, and the length forwarded is that of cutting out exactly the owned frames |
| Relay.FilterIsKept | foxess_local_cloud/server.py:852-860 | if no owned frame is disturbed by an earlier copy, exactly the owned frames are cut out |
| Relay.DeletedInPlaceIff | foxess_local_cloud/server.py:858-860 | one deletion cuts out the frame itself exactly when the bytes from its first copy on commute with it |
| Relay.NoCopiesInPlace | foxess_local_cloud/server.py:858-860 | where no owned frame's bytes occur earlier, none is disturbed |
| Relay.ReadForwardsKept | foxess_local_cloud/server.py:848-860 | the same for a whole read |
| Relay.ReadConserves | foxess_local_cloud/server.py:848-860 | for any ownership, forwarded and owned bytes together are as many as consumed |
| Relay.Transparent | foxess_local_cloud/server.py:836-879 | from inverter to cloud, over any run without owned frames, what was forwarded and the buffer together are what was read |
| Relay.Conservation | foxess_local_cloud/server.py:836-879 | over any run, with any ownership, what was forwarded and the buffer are left when bytes are taken out of what was read, as many as the owned frames have; at most 4095 bytes are withheld |
| Relay.CopyIsForwarded | foxess_local_cloud/server.py:858-860 | for every frame and every outer frame whose payload repeats it, the copy is deleted and the owned frame forwarded |
| RelayFrames.OnlyUnownedArrive | foxess_local_cloud/server.py:852-877 | of one read of whole frames, what the other side deframes is exactly the frames that are not owned, if none of the owned is disturbed |
| RelayFrames.OthersArriveIff | foxess_local_cloud/server.py:858-860 | with one owned frame in a read, the other side sees exactly the others if and only if it is undisturbed |
| RelayFrames.UnownedArriveIff | foxess_local_cloud/server.py:858-860 | for any owned frames: reads of the first few frames, however few, show the other side exactly the unowned ones if and only if each owned one is undisturbed |
| RelayFrames.DeletionsCancel | foxess_local_cloud/server.py:858-860 | for a single read the condition is only sufficient: two displaced deletions can undo each other |
| RelayFrames.OwnedFrameArrives | foxess_local_cloud/server.py:858-860 | an owned frame behind a frame that carries it as payload and one of its own length is deframed intact by the other side |
| RelayFrames.PayloadIsFirstCopy | foxess_local_cloud/server.py:858 | when that payload is the first copy, the previous result's premise |
| RelayRuns.UnownedArrive | foxess_local_cloud/server.py:836-879 | over a whole run whose reads end anywhere but between two start bytes: if in each read the owned frames are undisturbed, the other side deframes exactly the unowned frames of the stream |
| RelayDivisions.ArriveAlwaysIff | foxess_local_cloud/server.py:836-879 | the unowned frames of a stream arrive in every such division into reads if and only if, from any frame on, each owned frame is undisturbed by the unowned ones in front of it |
| RelayDivisions.UncopiedPlaced | foxess_local_cloud/server.py:858-860 | that condition holds if no owned frame's bytes begin anywhere among the unowned frames in front of it |
| Upstream.UndecodableShape | foxess_local_cloud/server.py:937-939 | the lookup of a command's function fails exactly for a 7f frame with six bytes and function 0x10 |
| Upstream.UpstreamPump.OnRead | foxess_local_cloud/server.py:888-916 | one read from the cloud: every frame is looked at and shown to the receiver, under the serial known by then, before anything is written, and a failure writes nothing |
| Upstream.UpstreamPump.Filter | foxess_local_cloud/server.py:899-913 | the loop over its frames, deletions included, stops at the first failure |
| Upstream.ReadLostIff | foxess_local_cloud/server.py:899-916 | with or without receiver, while there is a chunk number for each frame of the read, it is lost if and only if one of its frames is undecodable |
| Upstream.RaisesIff | foxess_local_cloud/firmware.py:350-386 | the receiver fails exactly on an intact chunk of the current variant that is taken as number 65535 and leaves data to come, or that has another number than a counter beyond 65535 |
| Upstream.UndecodableReadLost | foxess_local_cloud/server.py:937-939 | one undecodable frame anywhere in a read: nothing of the read is sent, and the relay has ended |
| Upstream.TransparentIff | foxess_local_cloud/server.py:881-918 | from cloud to inverter, over any run without firmware frames, what was forwarded and the buffer are what was read if and only if no frame was undecodable |
| Upstream.NothingInvented | foxess_local_cloud/server.py:881-918 | from cloud to inverter, over any run, whatever is captured or fails, what was forwarded and the buffer are left when bytes are taken out of what was read |
| CaptureMode.NoFirmwareArrives | foxess_local_cloud/firmware.py:305-309 | over a whole run of decodable frames whose reads end anywhere but between two start bytes: if in each read the firmware frames are undisturbed, the inverter deframes exactly the other frames, none of them firmware |
| CaptureMode.PromiseIff | foxess_local_cloud/firmware.py:305-309 | that is so in every such division into reads if and only if, from any frame on, each firmware frame is undisturbed by the others in front of it |
| CaptureMode.KeptWithoutCopies | foxess_local_cloud/firmware.py:305-309 | it is so in every division if no firmware frame's bytes begin anywhere among the other frames in front of it |
| CaptureMode.FirmwareArrives | foxess_local_cloud/firmware.py:305-309 | a firmware frame carried as payload of another frame reaches the inverter intact when it follows: the promise fails |
| CaptureMode.PromiseFails | foxess_local_cloud/firmware.py:305-309 | there are such frames, for every state of the receiver with three chunk numbers left |
| CaptureMode.NumbersRunOut | foxess_local_cloud/firmware.py:370-386 | chunks without data up to number 65535, one in each read, end the relay though no frame was undecodable |
| CaptureMode.EmptyChunksExist | foxess_local_cloud/firmware.py:213-237 | there are such chunks, for any stretch of numbers |
| Modbus.CollectWords | foxess_local_cloud/protocol.py:249-254 | the loop that collects register values stops at the first incomplete word |
| Modbus.WordsAre | foxess_local_cloud/protocol.py:249-254 | the values are the whole big-endian words that are there, in order, at most as many as announced |
| Modbus.UndecodableCommand | foxess_local_cloud/protocol.py:228-263 | a command decodes to nothing exactly when it is a six-byte function 0x10 |
| Modbus.CommandFields | foxess_local_cloud/protocol.py:221-263 | which frames are commands, and which fields each of the three kinds has, by the bytes |
| Modbus.WriteSuccessShape | foxess_local_cloud/protocol.py:266-280 | an acknowledgement is a 7f frame with function 06 and two bytes or at least six |
| Modbus.ResponsesDisjoint | foxess_local_cloud/protocol.py:266-323 | acknowledgement, read response and read exception exclude one another |
| Modbus.RequestIsNoResponse | foxess_local_cloud/protocol.py:283-298 | a six-byte request never looks like a read response, at any address |
| Modbus.ReadValuesAt | foxess_local_cloud/protocol.py:301-308 | a read response yields one value per register, in order |
| Modbus.ResponseRoundTrip | foxess_local_cloud/protocol.py:283-308 | a response with any 1 to 127 values is recognised, and its values come back |
| Modbus.ResponseIsEncoding | foxess_local_cloud/protocol.py:283-308 | nothing else is taken for a read response |
| Modbus.ExceptionShape | foxess_local_cloud/protocol.py:311-323 | a read exception is three bytes with function 83 or 84 |
| Modbus.WriteRoundTrip | foxess_local_cloud/protocol.py:203-245 | a built write parses to its register and its value |
| Modbus.ReadRoundTrip | foxess_local_cloud/protocol.py:209-243 | a built read parses to its register and its count |
| LocalControl.EchoHasKey | foxess_local_cloud/local_control.py:33-44 | an id and its echo with bit 7 set have one key |
| LocalControl.DeviceLayout | foxess_local_cloud/local_control.py:146-155 | an id is the operation, the counter with its low byte first, and AA |
| LocalControl.Control.TakeDevice | foxess_local_cloud/local_control.py:146-155 | the counter advances modulo 65536 and fills the id |
| LocalControl.Control.IssueRead | foxess_local_cloud/local_control.py:231-241 | a read is issued under the next id |
| LocalControl.Control.StartWrite | foxess_local_cloud/local_control.py:172-195 | id, registration before sending, bytes, and the outcomes that need no wait |
| LocalControl.Control.EndWrite | foxess_local_cloud/local_control.py:196-202 | confirmed, rejected or timed out, and the key is forgotten in every case |
| LocalControl.Control.ResolveResponse | foxess_local_cloud/local_control.py:204-214 | only the future waiting under this id is settled, and only once |
| LocalControl.Control.HandleFrame | foxess_local_cloud/server.py:984-993 | an intact frame under an issued id settles the write that waits, in the sense of the next rows |
| LocalControl.FrameSettles | foxess_local_cloud/server.py:984-993 | a frame settles a write exactly if it is an intact 7f frame under an issued id whose write waits; it confirms it if it has function 06 and two bytes or at least six, and rejects it otherwise |
| LocalControl.WriteFate | foxess_local_cloud/local_control.py:164-214 | after any events, a write is known under an id exactly if it was sent to be waited for and is not over; its first answer alone confirms or rejects it, and without one it waits |
| LocalControl.OwnFrames | foxess_local_cloud/local_control.py:157-162 | over any events, a frame counts as the gateway's exactly if it is a 7f frame under an id that the session ever injected |
| LocalControl.KeysRecur | foxess_local_cloud/local_control.py:146-155 | the ids of two writes are equal exactly when their injections are a multiple of 65536 apart |
| LocalControl.FreshUntilWrap | foxess_local_cloud/local_control.py:146-155 | among the first 65536 injections of a session no write's id was issued before |
| LocalControl.ResponseIsLocal | foxess_local_cloud/local_control.py:204-214 | an answer under another id changes nothing for a write |
| LocalControl.ConfirmationSound | foxess_local_cloud/local_control.py:164-214 | in every run a confirmed write was waiting when an intact 7f acknowledgement with its own id came, and the id was not issued again since |
| Ledger.Books.SetDesired | foxess_local_cloud/server.py:187-192 | a new generation for this serial; other serials untouched |
| Ledger.Books.MarkApplied | foxess_local_cloud/server.py:197-203 | the confirmed generation never goes back; other serials untouched |
| Ledger.Books.PendingLimit | foxess_local_cloud/server.py:205-214 | nothing is pending exactly when the latest generation is confirmed or none exists |
| Ledger.StaleAcknowledgement | foxess_local_cloud/server.py:197-203 | acknowledging an older command leaves the newer one pending |
| Ledger.RecordTells | foxess_local_cloud/server.py:187-203 | after any commands and confirmations: the number of commands, the last one's value, the last confirmation's value, and the highest confirmed generation |
| Ledger.PendingIff | foxess_local_cloud/server.py:205-214 | what is pending is the last command's value, exactly as long as neither its own write nor a later one was confirmed |
| SetpointHandler.Handler.HandleSetpoint | foxess_local_cloud/server.py:574-582 | a command is recorded before its write starts; the bytes sent command its value into the configured register, under the id that becomes pending, and the task carries its generation |
| SetpointHandler.Handler.StartApply | foxess_local_cloud/server.py:588-621 | the bytes of the write parse to a command of the value into the register under its id; whether and how the write is over at once; a confirmed one is recorded and read back |
| SetpointHandler.Handler.Conclude | foxess_local_cloud/server.py:614-621 | a confirmed outcome is recorded, shown if latest, and the register is read back; any other changes nothing |
| SetpointHandler.Handler.Finish | foxess_local_cloud/server.py:595-621 | the future or the time limit decides the outcome, the id is forgotten, and the outcome is concluded |
| SetpointHandler.Handler.Settle | foxess_local_cloud/server.py:623-640 | a pending command is re-applied with the current generation, by bytes that command it; otherwise the register is read |
| SetpointHandler.CommandingIsStep | foxess_local_cloud/server.py:574-621 | what the session does with a command, up to its wait, is the protocol's step |
| SetpointHandler.SettlingIsStep | foxess_local_cloud/server.py:623-640 | what it does after the first telemetry is the protocol's step |
| SetpointHandler.FinishingIsStep | foxess_local_cloud/server.py:595-621 | what it does when a write is answered or times out is the protocol's step |
| Setpoint.WritePutsOnWire | foxess_local_cloud/local_control.py:172-190 | bytes that command a write under its id are those of the one request that the protocol puts on the wire, and nothing goes out without a writer |
| Setpoint.ReadAsks | foxess_local_cloud/local_control.py:231-241 | the read-back asks for exactly the one configured register, under the id that becomes outstanding |
| SetpointSafety.WriteOnKeeps | foxess_local_cloud/local_control.py:172-202 | a write under a fresh id disturbs no earlier write and no answer on its way |
| SetpointSafety.ReceivedKeeps | foxess_local_cloud/server.py:987-993 | an answer, however late, confirms only a write that took effect |
| SetpointSafety.DeliverKeeps | foxess_local_cloud/server.py:584-621 | requests reach the inverter in the order of their commands |
| SetpointSafety.InvKept | foxess_local_cloud/server.py:574-640 | every step keeps the invariant: record, history, wire, answers and register agree |
| SetpointSafety.NothingPendingIsApplied | foxess_local_cloud/server.py:205-214 | in every run, if something was commanded and nothing is pending, the inverter's register is the latest command |
| SetpointSafety.SafeIffTimed | foxess_local_cloud/local_control.py:172-176 | that holds for all runs exactly when the write timeout is positive |
| SetpointSafety.UntimedIsUnsafe | foxess_local_cloud/local_control.py:193-195 | the run that breaks it otherwise: one write, lost |
| SetpointSafety.PublishedIsTrue | foxess_local_cloud/server.py:614-620 | a state shown after a confirmed write is the register's value and the latest command at that moment |
| SetpointSafety.OnlyConfirmationSettles | foxess_local_cloud/server.py:197-203 | a command stops being pending only when its own latest-generation write was confirmed, and then the register holds it |
| SetpointSafety.CommandIsPending | foxess_local_cloud/server.py:574-582 | a command is pending from its recording on, whatever becomes of the write |
| SetpointSafety.EchoConfirms | foxess_local_cloud/local_control.py:33-44 | the inverter's echo of a request is an acknowledgement with its key |
| SetpointSafety.EchoIsConfirming | foxess_local_cloud/server.py:984-993 | that echo is such an answer as the next two results need |
| SetpointSafety.CommandCompletes | foxess_local_cloud/server.py:574-621 | an answered command reaches the register, stops being pending and is shown |
| SetpointSafety.ReconnectionRepairs | foxess_local_cloud/server.py:623-640 | from every reachable state with a pending command, one answered reconnection applies and clears it |
| SetpointIds.IdsStayFresh | foxess_local_cloud/local_control.py:146-155 | in runs of any length, the next write of a session with fewer than 65536 injections gets an id new to it |
| Firmware.SafeIsAccepted | foxess_local_cloud/firmware.py:121-129 | a name that was cleaned is accepted when it comes back, and is ASCII |
| Firmware.AcceptedName | foxess_local_cloud/firmware.py:121-129 | the name is the last path component that is neither empty nor a dot, without white space around it; it is refused exactly if that is empty or dots |
| Firmware.NoNameRefused | foxess_local_cloud/firmware.py:121-126 | a path without such a component is refused |
| Firmware.FirmwareShape | foxess_local_cloud/firmware.py:209-237 | which frames are firmware, by their bytes, and the envelope, transfer id, CRC order and final suffix of their variant |
| Firmware.CrcFieldOrder | foxess_local_cloud/firmware.py:48-49 | the CRC field is the register, low byte first or high byte first as the variant says |
| Firmware.BuildThenParse | foxess_local_cloud/firmware.py:144-206 | building fails only for a bad serial; otherwise parsing gives size, CRC in variant order, name, serial and 300 |
| Firmware.CodecExact | foxess_local_cloud/firmware.py:144-182 | a payload parses to given metadata exactly when it is their encoding |
| Firmware.ParseThenEncode | foxess_local_cloud/firmware.py:144-182 | any payload that parses is reproduced byte for byte from its fields |
| Firmware.MetadataFields | foxess_local_cloud/firmware.py:144-182 | where each field of metadata lies, and how it is read |
| Firmware.MetadataLength | foxess_local_cloud/firmware.py:144-182 | every payload that parses has 17 to 526 bytes |
| Capture.FirmwareCapture.HandleUpstreamFrame | foxess_local_cloud/firmware.py:268-450 | every branch: new state and answer are those of `Step`, which the `CaptureRuns` rows below describe by the fields of the frame |
| Capture.FirmwareCapture.Append | foxess_local_cloud/firmware.py:370-450 | the judgement of an appended chunk: too large, more wanted, wrong CRC, save failed or complete |
| Capture.FirmwareCapture.SimulateProgress | foxess_local_cloud/firmware.py:497-522 | the six progress frames, with consecutive function bytes modulo 256 |
| Capture.AcksDiffer | foxess_local_cloud/firmware.py:323-423 | acknowledgements for different chunks, and the final one, differ |
| Capture.AckNumber | foxess_local_cloud/firmware.py:366-385 | an acknowledgement is the transfer id, the number of the chunk it asks for, high byte first, and 05 |
| CaptureRuns.AnsweredIff | foxess_local_cloud/firmware.py:268-450 | in every state, a firmware frame is answered exactly if it is intact metadata for this session's serial, or an intact chunk of the held transfer that is not the awaited one, leaves data missing, or completes the image with matching CRC and a successful save, while chunk numbers last |
| CaptureRuns.MetadataAnswer | foxess_local_cloud/firmware.py:289-329 | metadata for this serial is taken and answered with a request for chunk 0; for another serial, or without a known one, it is withheld in silence and changes nothing |
| CaptureRuns.SilentOnStrays | foxess_local_cloud/firmware.py:280-353 | damaged frames, chunks that nothing announced and chunks of another variant are withheld in silence and change nothing |
| CaptureRuns.UnwantedChunk | foxess_local_cloud/firmware.py:355-368 | a chunk with another number is answered with a request for the awaited one, and not taken |
| CaptureRuns.AwaitedChunk | foxess_local_cloud/firmware.py:370-450 | the awaited chunk is taken and judged: the next one asked for, silence, or completion |
| CaptureRuns.ChunkCountIs | foxess_local_cloud/firmware.py:609 | the number of chunks is the size divided by 1024, rounded up |
| CaptureRuns.ChunkLength | foxess_local_cloud/firmware.py:609 | every chunk has 1 to 1024 bytes, and all but the last 1024 |
| CaptureRuns.LargeIsUnambiguous | foxess_local_cloud/firmware.py:149-151 | the first chunk of an image of 520 bytes or more encodes no metadata |
| CaptureRuns.UnambiguousIff | foxess_local_cloud/firmware.py:289-292 | the receiver takes the first chunk for metadata exactly when it encodes some |
| CaptureRuns.StepCounts | foxess_local_cloud/firmware.py:350-450 | on correct chunks the receiver is a counter whose data is the image up to the chunk it waits for |
| CaptureRuns.DataIsPrefix | foxess_local_cloud/firmware.py:350-450 | under any order and repetition of correct chunks the data is always a prefix of the image, and what completes is the image |
| CaptureRuns.NoSecondChance | foxess_local_cloud/firmware.py:355-416 | after the last chunk failed its CRC or its save, no chunk of the image ever completes it |
| CaptureRuns.AlwaysExplained | foxess_local_cloud/firmware.py:268-450 | after any frames at all, the data is what chunks numbered 0, 1, ... carried since one accepted announcement |
| CaptureRuns.OwnsExactlyFirmware | foxess_local_cloud/firmware.py:240-349 | in every state the receiver claims each firmware frame and no other, and the others change nothing |
| CaptureRuns.CompletionIsSound | foxess_local_cloud/firmware.py:388-423 | the final acknowledgement is sent only for an announced, complete image with matching length and CRC, and a successful save |
| CaptureRuns.OverrunIsFinal | foxess_local_cloud/firmware.py:370-382 | after an overrun nothing completes until metadata for this serial is accepted |
| Uploader.FirmwareUploader.HandleClientFrame | foxess_local_cloud/firmware.py:546-566 | progress before acknowledgements, only the current tail, only the first answer |
| Uploader.FirmwareUploader.StartUpload | foxess_local_cloud/firmware.py:577-600 | refused while active; otherwise the queue is drained and the protocol's variant chosen, or the upload ended for an unknown protocol |
| Uploader.FirmwareUploader.Send | foxess_local_cloud/firmware.py:681-691 | a new tail and a new future for every request, and the frame that is written |
| Uploader.OwnedIff | foxess_local_cloud/firmware.py:546-566 | a frame is the uploader's exactly if an upload is active and the frame carries its transfer id and is a progress report or has its envelope and the current tail |
| Uploader.FrameEffect | foxess_local_cloud/firmware.py:546-566 | a progress report is queued, the first answer under the current tail is kept, and any other frame changes nothing |
| Uploader.ChosenEnvelope | foxess_local_cloud/firmware.py:584-599 | the family, function and transfer id that each protocol name stands for, and no other name is supported |
| Uploader.TailIsCounter | foxess_local_cloud/firmware.py:681-683 | a tail is the counter, high byte first |
| Uploader.ChunksConcatenate | foxess_local_cloud/firmware.py:609 | the chunks concatenate to the image |
| Uploader.AckIsNoProgress | foxess_local_cloud/firmware.py:550-555 | no expected acknowledgement is classified as progress |
| Uploader.TailsRecur | foxess_local_cloud/firmware.py:681-683 | tails recur after 2^24 requests, and not before |
| Uploader.StaleAckIgnored | foxess_local_cloud/firmware.py:559-565 | an answer with an older tail leaves the current request waiting |
| UploadRuns.StopAndWait | foxess_local_cloud/firmware.py:568-697 | whatever arrives and whenever, request k + 1 is sent only after the exact acknowledgement of request k under its tail |
| UploadRuns.SuccessMeansSent | foxess_local_cloud/firmware.py:608-665 | success means: metadata and all chunks sent once, in order, each acknowledged, progress taken in the order of its arrival, and only the last value reached 100 |
| UploadRuns.AnswersAreCurrent | foxess_local_cloud/firmware.py:681-697 | an answer addressed to a request is addressed to no earlier one |
| UploadRuns.CompletesIff | foxess_local_cloud/firmware.py:546-566 | whatever its CRC, a frame completes the request that waits if and only if it comes under its tail and envelope with exactly the expected payload |
| UploadRuns.CompletingIsOwned | foxess_local_cloud/server.py:854-860 | in every reachable state the frame that completes a request is the uploader's, so it is kept from the cloud |
| UploadRuns.ReportsAreOwned | foxess_local_cloud/server.py:854-860 | so is every progress report until the upload is over, and from then on no frame is |
| UploadRuns.WhatEndsIt | foxess_local_cloud/firmware.py:635-697 | a wait that times out or a wrong payload ends an upload in failure; the expected payload leads on, and so does progress below 100 |
| UploadRuns.DamagedFrameCompletes | foxess_local_cloud/firmware.py:546-566 | a frame with a wrong CRC, under the current tail and with the expected payload, completes the current request |
| Transfer.ChosenIsOnWire | foxess_local_cloud/firmware.py:584-599 | every protocol, function byte and transfer id gives one of the wire variants |
| Transfer.RequestVariant | foxess_local_cloud/firmware.py:213-237 | the receiver recognises the variant of every request of every wire variant |
| Transfer.Marks | foxess_local_cloud/firmware.py:452-463 | requests begin with 21 for metadata and 22 for chunks, answers with A1, and A2 once complete; an answer repeats the rest of the id and the function |
| Transfer.SimulatedReport | foxess_local_cloud/firmware.py:497-511 | each simulated frame is a progress report to an uploader of the same variant, under AF and the device tail |
| Transfer.RoundAdvances | foxess_local_cloud/firmware.py:268-697 | one request through real frames and back advances sender and receiver together |
| Transfer.TransferSucceeds | foxess_local_cloud/firmware.py:268-697 | whatever state the receiver was in, it saves exactly the image after one request per chunk and one for the metadata, and the progress 18, 38, 58, 77, 97, 100 completes the upload |
| Transfer.TransferIff | foxess_local_cloud/firmware.py:289-292 | the transfer succeeds exactly when the first chunk's payload does not parse as metadata |
| Transfer.LargeTransferSucceeds | foxess_local_cloud/firmware.py:268-697 | every image of 520 bytes or more arrives, under every wire variant and serial |
| Transfer.AmbiguousImages | foxess_local_cloud/firmware.py:149-182 | the rest of any metadata payload, as an image, has a first chunk that parses as that metadata |
| Transfer.AmbiguousUploadFails | foxess_local_cloud/firmware.py:289-292 | every upload of such an image fails, and nothing is saved |
| Readback.Correlation.RegisterPendingRead | foxess_local_cloud/server.py:496-506 | both tables are updated, the second only when a value is expected |
| Readback.Correlation.UnregisterPendingRead | foxess_local_cloud/server.py:508-510 | both entries go |
| Readback.Correlation.NoteCloudRead | foxess_local_cloud/server.py:937-940 | a read by the cloud takes the id's entry in the first table |
| Readback.Correlation.OnUnsent | foxess_local_cloud/server.py:655-685 | a read that could not be sent is withdrawn, and reported as no connection or as an error |
| Readback.Correlation.OnResponse | foxess_local_cloud/server.py:1065-1102 | both entries go, and the result is reported when the read was of the limit register |
| Readback.Correlation.OnException | foxess_local_cloud/server.py:1103-1132 | both entries go, and a waiting readback fails |
| Readback.Correlation.OnTimeout | foxess_local_cloud/server.py:697-713 | nothing happens unless the readback still waits |
| Readback.ReadbacksHaveReads | foxess_local_cloud/server.py:496-510 | in every reachable state every waiting readback has its read |
| Readback.ReadbacksAccounted | foxess_local_cloud/server.py:655-713 | under every id, readbacks registered are those settled by a reported result, those abandoned and the one that waits, for any order of events |
| Readback.ReportsAccounted | foxess_local_cloud/server.py:655-713 | every reported result settles a readback or is the late report of a failure to send |
| Readback.ComparedWithRequest | foxess_local_cloud/server.py:1065-1102 | whatever happens under other ids, the first value of the response is compared with the setpoint it was to confirm |
| Readback.ResultTells | foxess_local_cloud/server.py:665-685 | which result is reported and on which event: error, timeout, no connection, matched, mismatch |
| Readback.OwnEntries | foxess_local_cloud/server.py:496-510 | what an event does to the two entries under its id |
| Readback.OtherEntries | foxess_local_cloud/server.py:496-510 | it touches no others |
| Readback.AtMostOneResult | foxess_local_cloud/server.py:655-713 | an id used once is settled at most once among response, exception, timeout and failure to send |
| Readback.TwoResults | foxess_local_cloud/server.py:658-674 | a response that overtakes a failing drain is reported twice |
| Readback.ExclusivelySettled | foxess_local_cloud/server.py:1065-1132 | under an id registered once that the cloud does not use, exactly one result is reported once the readback no longer waits, and none before, if and only if no failure to send comes late |
| Staleness.Watch.MarkStale | foxess_local_cloud/server.py:348-358 | the loop, in any order, marks the overdue inverters and notifies each newly stale one once |
| Staleness.Watch.PublishTelemetry | foxess_local_cloud/server.py:416-425 | telemetry clears staleness and says so exactly if it was set |
| Staleness.StaleIffOverdue | foxess_local_cloud/server.py:348-358 | right after a check an inverter is stale exactly when it was heard and has been silent for the timeout |
| Staleness.StaleIff | foxess_local_cloud/server.py:348-425 | at any moment, whatever the clock did, an inverter is stale exactly if some check since its last telemetry found it silent for the timeout |
| Staleness.NoticesAlternate | foxess_local_cloud/server.py:348-425 | per inverter stale and resumed alternate, starting with stale, and the last one tells the present state |
| Faults.FaultTracker.UpdateFaultState | foxess_local_cloud/server.py:1154-1185 | the update of the two fields and the event it emits |
| Faults.CodesAre | foxess_local_cloud/telemetry.py:83 | the list holds 4160 - b for every set bit b, and nothing else |
| Faults.CodesAscend | foxess_local_cloud/telemetry.py:83 | it ascends |
| Faults.CodeDeterminesNewest | foxess_local_cloud/telemetry.py:76-84 | a code other than an offset-98 code determines the newest fault word |
| Faults.FaultCodeIs | foxess_local_cloud/telemetry.py:76-84 | the reported code by the words: none, the word at offset 98, the newest word as it is if it has an undocumented bit, or the ascending codes of its bits |
| Faults.EventsTellTheFault | foxess_local_cloud/server.py:1154-1185 | for any telemetry of a supported model a fault is observed only if another or none is open, what is cleared is the open one, the open fault is always the one the latest payload reports, and the code kept is the last one observed |
| ScanResponse.ParseScanResponse | foxess_local_cloud/ble_provision.py:140-164 | the loop computes the records, within the body, and refuses other frames |
| ScanResponse.RoundTrip | foxess_local_cloud/ble_provision.py:147-164 | any list of up to 255 networks comes back from its length-prefixed encoding |
| ScanResponse.ParsedIff | foxess_local_cloud/ble_provision.py:147-164 | for every body: the networks are exactly those whose whole records stand in front, up to the announced number or the first empty or incomplete record |
| ScanResponse.TruncationIsPrefix | foxess_local_cloud/ble_provision.py:152-157 | a truncated body yields the first networks of the whole |

## Left out

- TLS, sockets, scheduling, keepalive, certificates, MQTT plumbing, configuration, logging, BLE sessions and tools: calls into code with no invariant of their own.
- `BootstrapResponder` and the other text scraping of registration, product and mesh frames: easy members, or string heuristics.
- Scaled telemetry values: no property beyond reading a word.
- File saving, manifests and SHA-256: a save is a step that succeeds or fails; SSIDs, names and serials are byte strings, without UTF-8 decoding.
- The regular expression of `safe_firmware_filename`: `Firmware.NameAccepted` models which names it refuses, `Firmware.SafeName` which names it returns.
- The branch of the metadata codec for names without a length: no variant has `filename_has_length` false. Variant display names: no decision depends on them.
- The random function byte and transfer id of the dynamic variant: any values.
- What the other side of a relay deframes is proved for streams of frames; for streams that hold other bytes, conservation and transparency are.
- Ownership of a frame from the inverter: any answer. From the cloud, ownership is what the firmware receiver of `Capture` says.
- Failures of writers, of draining and of MQTT calls inside the relay loops: only failures of the handlers' own code are modelled.
- Read requests on the setpoint channel: they change no register, so the channel carries only writes; their ids are issued.
- States shown to the user from cloud writes and read responses: the history of shown states holds those of confirmed writes only.
- Fault codes as text: a code is a value that the text spells out.
- Faults.EventsTellTheFault: says nothing about a model that becomes unsupported during a fault, because the update then forgets the fault without an event.
