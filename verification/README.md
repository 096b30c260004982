# Verification of the file link, file transfer and toolpath preview

This project models three parts of the portable CNC controller and its desktop program, and proves properties of them.

**The framed link** between the firmware (`AppCdcTransport`) and the desktop (`SerialService`). A raw frame is a 9-byte
header, a payload and a 32-bit frame check sequence (appendix C.3 of RFC 1662). It is COBS-encoded and then byte-stuffed
between markers (flag 0x7E, escape 0x7D and the exclusive-or with 0x20 of section 4.2 of RFC 1662). Unlike in RFC 1662,
carriage return and line feed are escaped too, and a closing marker never opens the next frame. `Bytes`, `Crc32`, `Cobs`
and `Frames` define the format; `Receivers` and `DesktopReceiver` are the two receive state machines; `FrameBuilder`,
`Transport` and `SerialService` are the loops and classes of the two programs, proved against them.

**The file transfer protocol.** `Firmware` is the controller's command handling as a state machine (upload session,
card, loaded job), `FileProtocol` the handlers that update its state in place, `Lifecycle` what every sequence of
commands keeps, `TransferIds` when an identifier comes back and what late frames can do. `UploadSender` is the desktop's
windowed send loop. `UploadSystem` joins both ends by a link that loses, repeats and reorders; `LosslessUpload` proves
when an upload completes; `UploadOverWire` runs it through the framed link, in bytes. `Download` is the stop-and-wait
download, both loops and the same kind of link. `Chunks` is the file cut in pieces.

**The toolpath preview.** `GCodeParser` turns lines of words into segments with running bounds (`Toolpath`);
`ToolpathFilter` is the outlier filter with `Percentile`; `FilterProperties` bounds what it can remove; `Playback` holds
the line indexes and the searches over them.

Where a program updates fields, buffers or loop variables, the model is a class or a method with loops, and its contract
equates it with a function; the main results are lemmas about those functions. Hardware, file-system and timing
decisions (free space, whether a file opens, how much a write takes, timeouts, what the job stream reports) are
parameters of the step that meets them, so every result holds for all of them.

Two properties that one might expect do not hold of the code, and the model keeps the code. A completed upload need not
be on the card, because DELETE is not refused during an upload: `UploadSystem.ReportedCompleteIsStored` gives the exact
condition, and `UploadSystem.DeletedUploadIsReported` gives the run for every source of one chunk. The desktop receiver
need not recover after noise, because a stray '@' puts it into Line mode: `DesktopReceiver.StrayAtSignSilences` shows
it. No stray '@' is needed either: noise that ends inside a packet makes the next frame's opening marker close that
packet, and an '@' in the frame itself is then taken for text (`DesktopReceiver.MidPacketFrameSilences`; every frame of
transfer 64 has one). `DesktopReceiver.DesktopStabilisesIff` says exactly when the desktop recovers, in terms of the
state before the frame and the frame. `FilterProperties.NothingDroppedIff` is likewise exact: from twelve segments on, a
single move that leads to a distant part is removed from the preview.

## Model

| member | source | states |
|---|---|---|
| Crc32.TableStepIsByteStep | controller/src/protocol/app_cdc_transport.cpp:21-22 | one table step equals eight bitwise steps of the shift register |
| Crc32.TableEntry | controller/src/protocol/app_cdc_transport.cpp:12-17 | the inner loop yields eight bitwise steps of the entry's own index |
| Crc32.BuildTable | desktop/Services/SerialService.cs:556-567 | the table holds, for each of the 256 bytes, eight bitwise steps |
| Crc32.Update | desktop/ViewModels/FilesViewModel.cs:2390-2396 | the table-driven update computes the bitwise definition, for any register and data |
| Crc32.RegisterAppend | controller/src/app/app_file_protocol.cpp:338 | updating chunk by chunk equals one pass over the concatenation |
| Crc32.RegisterInjective | controller/src/protocol/app_cdc_transport.cpp:21-24 | running any data loses nothing: equal results mean equal starting registers |
| Crc32.WordSteps | controller/src/protocol/app_cdc_transport.cpp:21-22 | up to four bytes act on the register as one little-endian word, entered at once |
| Crc32.ChecksumIffResidue | controller/src/protocol/app_cdc_transport.cpp:272-274 | the appended check bytes are right if and only if the register ends in one fixed value |
| Crc32.BurstChangesRegister | controller/src/protocol/app_cdc_transport.cpp:21-24 | altering any of four consecutive bytes changes the final register |
| Bytes.ReadWriteU32 | controller/src/protocol/app_cdc_transport.cpp:149-168 | reading a word back from its little-endian bytes returns it |
| Bytes.WriteReadU16 | desktop/Services/SerialService.cs:539-540 | writing a word read from two bytes returns the bytes |
| Cobs.RoundTrip | controller/src/protocol/app_cdc_transport.cpp:175-245 | decoding an encoding returns the input, for every input |
| Cobs.NoZeros | controller/src/protocol/app_cdc_transport.cpp:175-212 | an encoding contains no zero byte |
| Cobs.EncodedLength | controller/src/protocol/app_cdc_transport.cpp:175-212 | encoded length is n + 1 + the number of full 254-byte blocks in the zero-free stretches |
| Cobs.FitsBudgetIff | desktop/Services/SerialService.cs:137 | the encoding fits n + ceil(n / 254) bytes unless, and only unless, the input is free of zeros and its length a multiple of 254 |
| Cobs.EncodeFirmware | controller/src/protocol/app_cdc_transport.cpp:175-212 | succeeds if and only if the encoding fits, and then writes exactly the encoding, despite one shared capacity check |
| Cobs.EncodeDesktop | desktop/Services/SerialService.cs:572-610 | succeeds on the same inputs and capacities as the firmware encoder and writes the same bytes |
| Cobs.DecodeInto | desktop/Services/SerialService.cs:612-640 | fails if and only if the input is malformed or its decoding does not fit; otherwise writes exactly the decoding |
| Frames.ParseRawIff | controller/src/protocol/app_cdc_transport.cpp:258-287 | a raw frame is accepted as f if and only if it is exactly the serialization of f |
| Frames.BurstIsRejected | controller/src/protocol/app_cdc_transport.cpp:263-274 | an accepted frame altered within any four consecutive bytes is rejected, wherever the window lies |
| Frames.EncodedFits | controller/src/protocol/app_cdc_transport.h:13-14 | the encoding of every frame a sender builds fits the per-frame buffer and the fixed receive buffer |
| Frames.MaximumFrameFillsBuffer | controller/src/protocol/app_cdc_transport.h:14 | a zero-free payload of maximum length fills the 4126-byte buffer exactly |
| Frames.StuffedIsClean | controller/src/protocol/app_cdc_transport.cpp:117-130 | between the markers no marker, carriage return or line feed occurs |
| Frames.StuffLength | controller/src/protocol/app_cdc_transport.h:43 | stuffing at most doubles the length, so the wire buffer suffices |
| FrameBuilder.StuffBytes | controller/src/protocol/app_cdc_transport.cpp:117-130 | the stuffing loop writes marker, escaped bytes, marker, within the buffer |
| FrameBuilder.BuildRaw | desktop/Services/SerialService.cs:138-147 | the header, payload and check fields written in order are the serialized frame |
| Transport.AppCdcTransport.AppendFrameByte | controller/src/protocol/app_cdc_transport.cpp:247-256 | stores a byte, or abandons the packet when the buffer is full |
| Transport.AppCdcTransport.DecodeFrame | controller/src/protocol/app_cdc_transport.cpp:258-287 | returns the frame the packet means and resets, or leaves the state alone |
| Transport.AppCdcTransport.ProcessByte | controller/src/protocol/app_cdc_transport.cpp:37-72 | one byte moves the receive state and completes a frame as the specification says |
| Transport.AppCdcTransport.Poll | controller/src/protocol/app_cdc_transport.cpp:27-77 | reads up to the first complete frame, in the state that the consumed bytes lead to |
| Transport.AppCdcTransport.SendFrame | controller/src/protocol/app_cdc_transport.cpp:88-141 | writes exactly one wire frame, or nothing for a payload that is too long; the encoder never fails |
| Receivers.RunFrame | controller/src/protocol/app_cdc_transport.cpp:37-72 | from an aligned state one wire frame is delivered as sent and leaves the receiver idle |
| Receivers.FirmwareDelivers | controller/src/protocol/app_cdc_transport.cpp:27-77 | any concatenation of sent frames is delivered as exactly that list |
| Receivers.FrameRealigns | controller/src/protocol/app_cdc_transport.cpp:27-77 | from every state whatever, one sent frame leaves the receiver aligned, at the price of at most one spurious delivery |
| Receivers.FirmwareStabilises | controller/src/protocol/app_cdc_transport.cpp:27-77 | after any garbage and one sent frame, every later frame is delivered once and in order |
| SerialService.Service.AppendFramePacketByte | desktop/Services/SerialService.cs:410-419 | stores a byte, or resets everything when the buffer is full |
| SerialService.Service.CompleteFramePacket | desktop/Services/SerialService.cs:421-459 | posts the frame the packet means, if any, and always resets |
| SerialService.Service.ProcessIncomingByte | desktop/Services/SerialService.cs:341-408 | one byte moves the four-mode state and posts frames and lines as the specification says |
| SerialService.Service.OnDataReceived | desktop/Services/SerialService.cs:316-339 | posts the frames and the text lines of the whole buffer in order, after those posted before |
| SerialService.Service.BuildFrameInto | desktop/Services/SerialService.cs:203-253 | appends exactly one wire frame; only a payload that is too long is refused, and then the batch stays as it was |
| SerialService.Service.SendFrame | desktop/Services/SerialService.cs:127-197 | writes exactly one wire frame to a connected port and nothing otherwise |
| SerialService.Service.BuildBatch | desktop/ViewModels/FilesViewModel.cs:1693-1714 | a window of prebuilt frames is the concatenation of their wire frames |
| DesktopReceiver.AgreesWithFirmware | desktop/Services/SerialService.cs:341-408 | on a stream with no '@' between frames the desktop receiver equals the firmware receiver and never enters Line mode |
| DesktopReceiver.DesktopDelivers | desktop/Services/SerialService.cs:341-459 | any concatenation of sent frames is delivered exactly from an aligned state, never through Line mode |
| DesktopReceiver.LineModeIsDeaf | desktop/Services/SerialService.cs:359-377 | in Line mode nothing but a line feed is acted on, and no frame is delivered |
| DesktopReceiver.DesktopStabilisesIff | desktop/Services/SerialService.cs:341-408 | after any bytes and one sent frame, everything later is delivered if and only if those bytes did not end in Line mode and the frame has no '@' where that state leaves it exposed: all of it if they ended inside a packet, what follows an overflow if they ended after an escape, else nothing |
| DesktopReceiver.StrayAtSignSilences | desktop/Services/SerialService.cs:351-356 | one stray '@' between frames silences the receiver for every later frame, so it does not stabilise |
| DesktopReceiver.LineAfterFrameIff | desktop/Services/SerialService.cs:341-408 | a sent frame leaves the receiver in Line mode if and only if it was in it before or the frame has an '@' in that exposed part |
| DesktopReceiver.TransferSixtyFour | desktop/Services/SerialService.cs:138-147 | every frame of transfer 64 has an '@' between its markers, whatever its payload |
| DesktopReceiver.MidPacketFrameSilences | desktop/Services/SerialService.cs:379-393 | noise without any '@' that ends inside a packet, followed by one frame of transfer 64, silences the receiver for good |
| DesktopReceiver.LineFeedRestores | desktop/Services/SerialService.cs:364-374 | a line feed ends that silence and later frames are delivered again |
| FileProtocol.FileProtocol.CloseUploadSession | controller/src/app/app_file_protocol.cpp:119-142 | the file is closed if open, the partial file removed if asked and if the card lets it, and the session reset |
| FileProtocol.FileProtocol.BeginFileUpload | controller/src/app/app_file_protocol.cpp:216-292 | whole effect and answer of an upload request, every refusal in order |
| FileProtocol.FileProtocol.ReceiveUploadData | controller/src/app/app_file_protocol.cpp:294-342 | whole effect and answer of a data frame: duplicate, gap, too large, short write, accepted |
| FileProtocol.FileProtocol.FinishFileUpload | controller/src/app/app_file_protocol.cpp:344-381 | whole effect and answer of the final check |
| FileProtocol.FileProtocol.AbortFileUpload | controller/src/app/app_file_protocol.cpp:680-684 | closes and removes an active upload and answers in any case |
| FileProtocol.FileProtocol.UnloadJobService | controller/src/app/app_job_service.c:138-145 | unloading clears the job and stops it |
| FileProtocol.FileProtocol.SendFileLoad | controller/src/app/app_job_service.c:116-136 | whole effect and answers of loading a job |
| FileProtocol.FileProtocol.SendFileUnload | controller/src/app/app_file_protocol.cpp:451-463 | whole effect and answers of unloading |
| FileProtocol.FileProtocol.SendFileDelete | controller/src/app/app_file_protocol.cpp:578-620 | whole effect and answers of deleting, which unloads the job of that name |
| FileProtocol.FileProtocol.SendFileDownload | controller/src/app/app_file_protocol.cpp:488-535 | refusals, identifier and frame of a download as the rest of the controller sees it |
| FileProtocol.FileProtocol.StartLoadedJob | controller/src/protocol/app_protocol.cpp:279-305 | whole effect and answers of START, which resumes a running job |
| FileProtocol.FileProtocol.AbortRunningJob | controller/src/protocol/app_protocol.cpp:325-335 | whole effect and answers of ABORT |
| FileProtocol.FileProtocol.PushJobState | controller/src/protocol/app_protocol.cpp:450-464 | progress events and the one completion event of the push task |
| FileProtocol.FileProtocol.HandleCommand | controller/src/app/app_file_protocol.cpp:622-704 | every command has exactly the effect and answers that the lifecycle lemmas are about, and the object keeps their invariant |
| Lifecycle.InvFromPowerUp | controller/src/app/app_file_protocol.cpp:21-36 | from power-up, after every sequence of commands: a session is active exactly when its file is open, its identifier is not zero, its counters and check are those of the stored bytes, opens and closes balance, and a running job is loaded |
| Lifecycle.HandleKeepsInv | controller/src/app/app_file_protocol.cpp:622-704 | every single command keeps that invariant |
| Lifecycle.AckReportsStored | controller/src/app/app_file_protocol.cpp:144-153 | every acknowledgement names the session's transfer, its last accepted chunk and, modulo 2^32, the length of the stored file |
| Lifecycle.CountFollowsFileIff | controller/src/app/app_file_protocol.cpp:316 | after an accepted chunk the controller's byte count is the length of its stored file if and only if that length fits 32 bits |
| Lifecycle.SessionOutcome | controller/src/app/app_file_protocol.cpp:119-142 | a session that ends has closed its file once and either was reported complete with the checked file in place, or the file is gone exactly if the card lets it be unlinked |
| Lifecycle.TargetStaysIff | controller/src/app/app_file_protocol.cpp:578-604 | the target leaves the card during a session if and only if it is deleted by that name while no job runs |
| Lifecycle.NoOtherPathChanges | controller/src/app/app_file_protocol.cpp:216-381 | no command changes a path other than the one it names or the session's own |
| Lifecycle.RunningJobBlocksStorage | controller/src/app/app_file_protocol.cpp:172-182 | while a job runs the five storage commands are refused as busy and change nothing |
| Lifecycle.LoadedJobIsStable | controller/src/app/app_job_service.c:116-150 | over any run during which the job keeps running its name, path and length stay the same |
| Lifecycle.EndsExactlyRunningJobs | controller/src/protocol/app_protocol.cpp:325-335 | an end is announced if and only if a running job stops running |
| Lifecycle.EachStartEndsAtMostOnce | controller/src/protocol/app_protocol.cpp:279-335 | over every sequence of commands, starts and announced ends alternate: each start has at most one end |
| TransferIds.IdReturnsIff | controller/src/app/app_file_protocol.cpp:268-270 | the identifier for no transfer is never given out, and an identifier comes back after n uploads if and only if n is a multiple of 255 |
| TransferIds.IdStep | controller/src/app/app_file_protocol.cpp:264-270 | no command but an accepted upload request changes the session's transfer, and that one takes the next identifier |
| TransferIds.IdIsFreshFor254Uploads | controller/src/app/app_file_protocol.cpp:268-270 | over every sequence of commands with at most 254 uploads, no upload is given the identifier of the present one |
| TransferIds.LateFramesChangeNothing | controller/src/app/app_file_protocol.cpp:294-302 | data frames of a transfer without a session, anywhere among other commands and later uploads, leave the controller as if they had never come |
| Chunks.ChunksConcatenate | desktop/ViewModels/FilesViewModel.cs:1665 | the chunks in order concatenate to the file |
| Chunks.NextCrc | desktop/ViewModels/FilesViewModel.cs:1701 | running the check over one more chunk covers one more chunk of the file |
| UploadSender.WindowedUpload.ReadChunk | desktop/ViewModels/FilesViewModel.cs:1697-1699 | a full-size read yields the next chunk |
| UploadSender.WindowedUpload.SendNextChunk | desktop/ViewModels/FilesViewModel.cs:1697-1710 | reads, checks, sends and remembers the next chunk, and keeps the window invariant |
| UploadSender.WindowedUpload.FillWindow | desktop/ViewModels/FilesViewModel.cs:1693-1714 | fills the window up to eight chunks or the end of the file |
| UploadSender.WindowedUpload.ReadUploadChunkAck | desktop/ViewModels/FilesViewModel.cs:1905-1937 | returns the first acknowledgement of this transfer that advances the window, or what ended the wait |
| UploadSender.WindowedUpload.TakeAck | desktop/ViewModels/FilesViewModel.cs:1750-1756 | drops exactly the acknowledged chunks and keeps the window invariant |
| UploadSender.WindowedUpload.DoUpload | desktop/ViewModels/FilesViewModel.cs:1687-1770 | the send loop computes, for every channel content, cancellation and failing read, the specified result, frames and number of iterations; the way out for an empty window is unreachable |
| UploadSender.RemainingSlices | desktop/ViewModels/FilesViewModel.cs:1752-1753 | dropping acknowledged chunks leaves exactly the chunks after them |
| UploadSender.SendLoopEnds | desktop/ViewModels/FilesViewModel.cs:1687-1775 | at most three iterations for each chunk; the final check is sent only when every chunk is acknowledged, and is the check of the whole file |
| UploadSender.SendLoopIsGenuine | desktop/ViewModels/FilesViewModel.cs:1705-1745 | every frame on the link, first or resent, carries its own chunk of the file |
| UploadSender.SendLoopLeavesNoGap | desktop/ViewModels/FilesViewModel.cs:1695-1745 | whatever the channel yields, the frames on the link leave no gap before the next chunk |
| UploadSender.AcceptedIffAdvances | desktop/ViewModels/FilesViewModel.cs:1939-1947 | a truthful cumulative acknowledgement is accepted if and only if it advances the window |
| UploadSystem.ReadyIsInitial | controller/src/app/app_file_protocol.cpp:264-291 | an accepted upload request is exactly where the upload runs start |
| UploadSystem.ApplyKeepsInv | controller/src/app/app_file_protocol.cpp:294-342 | every step of sender, link or controller keeps the joint invariant |
| UploadSystem.ReachableInv | desktop/ViewModels/FilesViewModel.cs:1687-1770 | the joint invariant of sender, link and controller holds in every state of every run |
| UploadSystem.StoredPrefix | controller/src/app/app_file_protocol.cpp:294-342 | over every run with loss, repetition and reordering: an active session stores exactly the chunks below the expected one, and acknowledged, expected and sent positions are ordered |
| UploadSystem.ReportedCompleteIsStored | controller/src/app/app_file_protocol.cpp:344-381 | over every run, also with other uploads before and after: whenever completion of this transfer is reported, the stored file is the source, if and only if it was not deleted by name meanwhile |
| UploadSystem.DeletedUploadIsReported | controller/src/app/app_file_protocol.cpp:578-604 | for every source of one chunk there is a run in which the file is stored, deleted by name, and nevertheless reported complete without being on the card |
| UploadSystem.OnlyEndReplies | controller/src/app/app_file_protocol.cpp:370-377 | no step but the final command of the sender is ever answered with completion |
| UploadSystem.FinalCheckSucceeds | controller/src/app/app_file_protocol.cpp:353-366 | once every chunk is acknowledged, neither the size check nor the checksum can fail |
| UploadSystem.AckAcceptedIffAdvances | desktop/ViewModels/FilesViewModel.cs:1905-1947 | every acknowledgement that can arrive is accepted if and only if it advances the window |
| UploadSystem.WindowHoldsItsChunks | desktop/ViewModels/FilesViewModel.cs:1695-1753 | in every run the window is the chunks after the acknowledged ones, at most eight, each with its part of the file |
| LosslessUpload.LosslessNeverGaps | controller/src/app/app_file_protocol.cpp:309-314 | if the data frames of this transfer arrive in order and none is lost, a bad sequence is never reported for it, whatever timeouts, resends, lost acknowledgements, refused requests, other commands and later uploads there are |
| LosslessUpload.AcceptedIffGapFree | controller/src/app/app_file_protocol.cpp:304-314 | a receiver that only takes chunks in order gets through a list of frames if and only if every number above the expected one comes after its predecessor |
| LosslessUpload.GapReportedIff | controller/src/app/app_file_protocol.cpp:304-314 | a bad sequence is reported, and the file removed if the card lets it, if and only if some frame above the expected one comes before its predecessor; otherwise every chunk up to the first missing one is stored |
| LosslessUpload.LosslessUploadCompletes | controller/src/app/app_file_protocol.cpp:344-381 | when the send loop finishes over such a link, the final check succeeds and the card holds the source |
| LosslessUpload.LosslessLinkCompletes | desktop/ViewModels/FilesViewModel.cs:1687-1782 | the controller's answers are exactly the acknowledgements that let the send loop finish, and the upload completes |
| UploadOverWire.FileCrossesTheWire | desktop/ViewModels/FilesViewModel.cs:1693-1714 | the same in bytes: chunks stuffed onto the wire, taken off by the receiver, stored, and acknowledged back over the wire; the card ends with the source |
| Download.WaitDownloadAck | controller/src/app/app_file_protocol.cpp:465-486 | waits for exactly this acknowledgement; an abort or a timeout fails the download |
| Download.SendFileDownload | controller/src/app/app_file_protocol.cpp:538-576 | the read loop sends, for every sequence of messages heard, exactly the specified packets |
| Download.ReceiveFile | desktop/ViewModels/FilesViewModel.cs:893-957 | the receive loop returns, for every announced size and sequence of packets, exactly the specified result and acknowledgements; sizes above 2^31 - 1 are refused |
| Download.ApplyKeepsInv | controller/src/app/app_file_protocol.cpp:543-557 | every step of sender, link or receiver keeps the joint invariant |
| Download.ReachableKeepsInv | controller/src/app/app_file_protocol.cpp:543-557 | the joint invariant holds in every state of every run with loss, repetition and reordering |
| Download.DownloadedIsFile | desktop/ViewModels/FilesViewModel.cs:938-951 | a download that returns bytes returns exactly the file, whatever the link did |
| Download.ReceiverHoldsPrefix | desktop/ViewModels/FilesViewModel.cs:914-936 | the receiver is at the sender's chunk or one ahead and holds a prefix of the file in whole chunks |
| Download.CompleteAlwaysReturns | desktop/ViewModels/FilesViewModel.cs:943-949 | when the final packet arrives neither the size nor the check can be wrong |
| Download.OnlyNewChunksAppend | desktop/ViewModels/FilesViewModel.cs:919-926 | a packet adds bytes if and only if it is the next chunk; repeats never append |
| Download.CompletedSendIsWholeFile | controller/src/app/app_file_protocol.cpp:543-575 | a completed download took exactly ceil(size / 4096) data packets, the chunks in order, and the right check |
| Download.LosslessDownload | controller/src/app/app_file_protocol.cpp:537-576 | over a link that loses nothing the sender finishes and the file is returned, if and only if its size is at most 2^31 - 1 |
| Toolpath.IncludeKeepsExact | desktop/Services/GCode/GCodeParser.cs:697-722 | including one more segment keeps the exact bounding box |
| Toolpath.BoundsAreExact | desktop/Services/GCode/GCodeParser.cs:515-532 | the running bounds are the exact bounding box of all endpoints, present exactly when there are any |
| Percentile.GetPercentile | desktop/Services/GCode/GCodeParser.cs:669-687 | the list is left sorted, a permutation of what it was, and the result lies between the two neighbours of the scaled position; it is the interpolated percentile |
| Percentile.PercentileOfSorted | desktop/Services/GCode/GCodeParser.cs:595-596 | the second percentile, taken from the sorted list, is that of the original list |
| Percentile.TailsAreShort | desktop/Services/GCode/GCodeParser.cs:669-687 | at most ceil(0.02 * (m - 1)) of m values lie below the 2% percentile, and as many above the 98% one |
| ToolpathFilter.FilterSegments | desktop/Services/GCode/GCodeParser.cs:534-649 | the result is the two passes, suppressed and kept add up to the input, and the new bounds are the exact box of what was kept |
| ToolpathFilter.LengthPass | desktop/Services/GCode/GCodeParser.cs:556-568 | keeps the segments within the threshold and counts the others |
| ToolpathFilter.EnvelopePass | desktop/Services/GCode/GCodeParser.cs:606-628 | keeps the segments inside the envelope with their exact bounds and counts the others |
| ToolpathFilter.ComputeEnvelopes | desktop/Services/GCode/GCodeParser.cs:582-604 | percentiles and margins of the endpoint lists |
| FilterProperties.LengthPassIsIdentity | desktop/Services/GCode/GCodeParser.cs:554-568 | given exact bounds, the length pass removes nothing |
| FilterProperties.FilteredIsSubsequence | desktop/Services/GCode/GCodeParser.cs:534-649 | what is kept is kept in order and unchanged |
| FilterProperties.FewAreSuppressed | desktop/Services/GCode/GCodeParser.cs:606-628 | of n segments the envelope removes at most 6 * ceil(0.02 * (2n - 1)) |
| FilterProperties.FilterBound | desktop/Services/GCode/GCodeParser.cs:534-649 | that bound for the whole filter; nothing is dropped up to eleven segments; a non-empty toolpath is never emptied |
| FilterProperties.NothingDroppedIff | desktop/Services/GCode/GCodeParser.cs:598-604 | every toolpath of n segments survives unchanged if and only if n is at most eleven |
| GCodeParser.Parser.AddSegment | desktop/Services/GCode/GCodeParser.cs:515-532 | appends the segment and keeps the running bounds |
| GCodeParser.Parser.AddArcSegments | desktop/Services/GCode/GCodeParser.cs:495-510 | appends one segment from each arc point to the next, all of one source line |
| GCodeParser.Parser.ProcessLine | desktop/Services/GCode/GCodeParser.cs:203-307 | whole effect of one line on modal state, segments and warnings |
| GCodeParser.Parser.Parse | desktop/Services/GCode/GCodeParser.cs:36-101 | the document holds the filtered segments of all lines with their exact bounds, and the only filter warning counts the envelope's removals |
| GCodeParser.ParsedInSourceOrder | desktop/Services/GCode/GCodeParser.cs:56-77 | every segment carries the number of an existing line, never going back |
| GCodeParser.PreviewInSourceOrder | desktop/Services/GCode/GCodeParser.cs:79-91 | filtering keeps that order |
| GCodeParser.PreviewNeverEmpty | desktop/Services/GCode/GCodeParser.cs:79-91 | a program that draws anything is shown, with at most 6 * ceil(0.02 * (2n - 1)) of n segments missing |
| GCodeParser.DrawsIffMoves | desktop/Services/GCode/GCodeParser.cs:268-306 | the position changes if and only if segments are added, the first from where the machine was |
| Playback.BuildPlaybackFrames | desktop/Rendering/ToolpathGlRenderer.cs:272-307 | frame 0, then one frame for each maximal run of segments of one line, without overlap or gap |
| Playback.FindPlaybackFrameIndex | desktop/Rendering/ToolpathGlRenderer.cs:392-418 | the binary search finds the last frame at or before the line, frame 0 before all, -1 without frames |
| Playback.ComputeCompletedCount | desktop/Rendering/LineRenderer.cs:173-191 | the binary search finds the number of leading segments up to the line |
| Playback.PlaybackCursor.RebuildPlaybackLineSequence | desktop/ViewModels/DashboardViewModel.cs:388-413 | the keyframe list is the source lines without repeats, and the cursor is reset |
| Playback.PlaybackCursor.FindKeyframeIndex | desktop/ViewModels/DashboardViewModel.cs:317-334 | the binary search finds the last keyframe at or before the line, or -1 |
| Playback.PlaybackCursor.ResolvePlaybackStartIndex | desktop/ViewModels/DashboardViewModel.cs:415-431 | the linear scan finds that same keyframe |
| Playback.KeyframesAreFrames | desktop/Rendering/ToolpathGlRenderer.cs:283-306 | the keyframe lines are the lines of all frames after the first, strictly ascending |
| Playback.IndexesAgree | desktop/ViewModels/DashboardViewModel.cs:317-334 | for every line: completed count, number of segments up to the line and end of the found frame agree, and the frame index is the keyframe index plus one |
| Playback.PreviewIsSearchable | desktop/Rendering/ToolpathGlRenderer.cs:392-418 | every parsed program gives the three searches the sorted lists they need |

## Left out

- Frames.BurstIsRejected: a burst on the wire, before the stuffing and the COBS encoding are undone, is not claimed to be detected; the window is in the raw frame.
- Transport.AppCdcTransport.SendFrame: a null payload with a nonzero length is not modelled; the bytes are given as a sequence.
- SerialService.Service.SendFrame: the port's own exceptions, the write lock and the timing statistics are left out.
- Lifecycle.InvFromPowerUp: a 32-bit count that has wrapped is only known modulo 2^32; up to a size of 2^32 - 1 - 4096 bytes it is the stored length.
- Lifecycle.LoadedJobIsStable: name, path and length only; the bytes of the loaded file may change while a job runs, because START does not look for an active upload.
- UploadSender.SendLoopEnds: completion is not claimed after a lost data frame, on which the controller destroys the session; `LosslessUpload.GapReportedIff` says exactly when.
- UploadSystem.ReportedCompleteIsStored: an upload that is given the same identifier again is not part of a run; `TransferIds.IdIsFreshFor254Uploads` says that takes 255 uploads.
- FileProtocol.FileProtocol.SendFileDownload: one command as seen by the session and job state; its packets are modelled in `Download`.
- FileProtocol.FileProtocol.SendFileLoad: the line count of the file is a parameter of the command.
- Firmware: directories, request numbers, texts and names in answers, write timing, and commands too short for their structure are not modelled.
- Download.ReceiveFile: the retries of the request before the first packet are left out; a timeout or a cancellation is the end of the packets.
- Percentile.GetPercentile: the in-place library sort is the function `Sort`, on a sequence that the call returns sorted.
- GCodeParser.Parser.ProcessLine: reading words from text and stripping comments, with their warnings, is left out; words are given.
- GCodeParser.Parser.AddArcSegments: the arc points are given, because tessellation rests on trigonometry; their number is between 8 and 96.
- ToolpathFilter.LengthPass: lengths are compared as squares over the reals; rounding of doubles and square roots is not modelled.
- The desktop's 5 MiB upload limit: uploads are modelled for every size below 2^32.
- The older upload loop with one chunk in flight, session retries, progress texts and dialogs.
- Playback timing, marker animation and camera, rendering and buffers of the graphics card.
- Motion, settings, displays, touch, sensors, fan, the dirty-rectangle list and the grbl driver.
