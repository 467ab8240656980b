# S7comm client: a verified model

The repository is a client for the S7 request/response protocol (S7 PDUs in COTP data TPDUs in TPKT
frames over one TCP connection). This project models its core in Dafny and proves what the client
promises: that a chunked read or write moves exactly the bytes it names, that a reply is never taken
for another request's, that an upload has no gap, that sessions do not leak connections, that every
interleaving of goroutines on one client is a sequential run, and that the concurrent scans compute
what a sequential scan would.

`dafny verify dfyconfig.toml` checks everything. One module per file:

| file | what it holds |
|---|---|
| `Bytes.dfy`, `S7.dfy`, `PduReadWrite.dfy`, `PduBlocks.dfy`, `Tsap.dfy` | the wire layer: header, read/write and upload PDUs, TSAPs |
| `Link.dfy` | a connection: frames delivered whole and in order, one reply each, in order; an arbitrary script decides every I/O step |
| `Exchange.dfy`, `Correlation.dfy` | one exchange, and whole runs of exchanges with replies left unread |
| `Replies.dfy` | what every exchange, chunk, read, write and upload attempt comes to, read off the event and the reply's bytes |
| `ReadWrite.dfy`, `Plc.dfy`, `ReadAfterWrite.dfy` | chunk planning, chunked reads and writes, and a device that decodes the bytes it is sent |
| `EndToEnd.dfy`, `FarAddresses.dfy` | the same from the dial on, and addresses the wire cannot name |
| `Upload.dfy`, `BlockStore.dfy` | block upload with retries and the deferred end-upload, and a device that stores blocks by type and number and decodes the upload frames |
| `Handshake.dfy`, `Client.dfy` | connection attempts; the client object with its fields, connections and methods |
| `Operations.dfy`, `Serial.dfy`, `UnreadReplies.dfy`, `Sessions.dfy` | the operations cut into stretches, goroutines interleaving them under the request mutex, what an unread reply does to them, and which session they use |
| `Cidr.dfy`, `Discover.dfy` | address streaming and the discovery worker pool |
| `RackSlotProbe.dfy`, `ProbeOne.dfy`, `CompareRead.dfy`, `Goroutines.dfy` | the two other fan-outs, the rack/slot probe itself, and what the fan-outs share |
| `RangeScan.dfy`, `ScanOnDevice.dfy` | range scan and span consolidation, and the scan against the byte-array device |
| `Host.dfy`, `Failures.dfy` | a host with a CPU at each of a set of racks and slots, as discovery, probe, auto-connect and comparison see it; and what each of them reports for every failure of a handshake |

The network is not a fixed behaviour. `Link.Env` is a pair of arbitrary functions: for every I/O step
what happens (frame cannot be built, send fails, context done after the send, receive fails, reply
delivered) and for every history of delivered frames what the device answers. All theorems quantify
over both, and over the script of context checks; a theorem that needs a well-behaved device or link
says so in its `requires`. A failed send delivers nothing; a failed receive leaves the reply unread.

Methods of the source that update state are methods here, each proved equal to a function of the old
state (`ClientObject.Client.ReadArea` to `ReadWrite.ReadArea`, and so on); what the source promises is
then proved about those functions.

## What the proofs found

- **Odd PDU sizes.** A write is padded to even after its chunk is sized, so with an odd PDU size a full
  chunk is one byte too long. `ReadWrite.WriteFits` is the exact condition on PDU size and length under
  which all chunks pass the size check (`PlannedWritesFitExactly`).
- **Long chunks.** A PDU above 8219 bytes allows write chunks whose 16-bit bit length wraps; a device
  cannot take them. On a working link a write succeeds if and only if it fits, no chunk is that long and
  the range exists (`WriteSucceedsExactly`). The refusal of such a chunk can even go unnoticed, and the
  next chunk lands beyond a hole (`LongChunkCanLeaveAHole`; `WriteLeavesAHole` is such a run from the dial on).
- **Stale replies.** A reply left unread is accepted for a later request if and only if the new
  reference is 0 or the reference counter has gone round a whole number of times since
  (`StaleAcceptedExactly`). Otherwise no read or write that has something to transfer succeeds while a
  reply is unread (`LaggedReadFails`, `LaggedWriteFails`). The bound must therefore count references issued, not replies unread: one
  unread reply and 65535 failed sends suffice (`OneUnreadReplyCanBeTakenForAnother`). One of those
  sends carries reference 0, so this does not contradict the theorems that ask for no reference 0 in a
  whole run: from a connection that owes nothing, that hypothesis alone bounds the window
  (`NoZeroIsShort`).
- **Uploads.** Begun on a connection that owes no reply, an upload that returns data is exact with no
  hypothesis on references at all (`UploadIsExact`). A retry past an unread reply ends in failure when
  no reference is 0 (`UploadLeavesNothingUnread`), and can succeed when one is
  (`RetryWithZeroRefSucceeds`).
- **Over-long replies** are accepted, so a short chunk can be hidden by a later over-long one
  (`OverlongReplyHidesAnEmptyChunk`); without them success means exactly the requested range
  (`ReadSuccessExactly`), and the exact condition on the replies is `SuccessMeansFullExactly`.
- **Wire widths.** DB number, start address and size are truncated to the wire fields, and a written
  value is cut modulo 8192 bytes by its 16-bit bit length; the decoder lemmas say exactly how, for all
  inputs (`DecodeReadRequest`, `DecodeWriteRequest`). Validation accepts such addresses, so a write beyond
  2 MB or to a block beyond 65535 silently lands elsewhere (`AddressesWrap`, `FarWriteLands`).
- **Confirmation kinds.** `client/probe.go:114` documents that a strict probe defaults to any
  confirmation; the code replaces only `"none"`, so leaving the field at its zero value confirms nothing
  (`StrictConfirmsExactly`). The follow-up queries share one reference, so after a timeout the credit can go
  to the wrong query (`ConfirmationCanBeCreditedWrongly`); it is right if and only if no reply was left
  unread (`ConfirmedByIsRightExactly`).
- **A reference mismatch in the handshake** is not marked as a protocol failure, so a comparison read
  reports it as a transport error (`client/handshake.go:81-83`, `MismatchInHandshakeIsTransportError`).
- **A too short setup reply** counts as `rejected` (its parse error is an S7 error), and so does a TSAP
  that cannot be built, although `client/probe.go:64` keeps that status for explicit refusals.
  `RejectedExactly` says for every network and device when the status is given and when it is a refusal;
  `TerseDeviceIsReportedAsRejected` is a device that refuses nothing.
- **Spans with step > probe size** cover bytes no probe read as soon as one probe carries on the one
  before it (`CoverageHoldsExactly`).
- **Statuses outside the eight named ones** are missing from the range summary
  (`SummaryIsPermutationExactly`).
- **/0 prefixes.** The guard of `expandCIDR`'s loop can never fail for /0 (`ExpandStopsExactly`);
  `streamCIDR` refuses such prefixes first. Its comment says network and broadcast address are skipped for
  /24 and larger; the code skips them for every prefix of more than two addresses (`HostsAreConsecutive`).

- **Refusals with an unknown transport size.** The parser looks at the transport size of an item before
  its return code, so a device that puts 0x00 beside its refusal gets a protocol error without a code
  reported, not the rejection (`wire/pdu_rw.go:255-262`). `Plc.Config.refusalSize` is that byte;
  `RefusedReadExactly` says for every device what a refused read returns.
- **Scans below zero.** A range request may start below 0; every window that does is a transport error
  although nothing is sent for it (`WindowBeforeTheArea`). With neither step nor probe size given, the
  windows are eight bytes wide and one byte apart (`RangeScan.Stride`).

## Model

| member | source | states |
|---|---|---|
| S7.EncodeS7Header | wire/s7.go:78-87 | the buffer filled in place is the ten header bytes, lengths cut to 16 bits |
| S7.ParseS7Header | wire/s7.go:90-123 | the branches by message type and their four errors |
| S7.SplitCannotWrap | client/client.go:262-268 | for every payload one TPKT frame can carry, the 16-bit sum used for slicing does not wrap and both slices are in range and exact |
| S7.RequestRoundTrip | wire/s7.go:78-123 | parsing an encoded Job or Userdata header plus sections gives back reference, lengths and both sections |
| S7.EitherAckRoundTrip | wire/s7.go:107-122 | the same for both kinds of acknowledgement, with their error class and code |
| PduReadWrite.EncodeReadVarRequest | wire/pdu_rw.go:198-209 | the loop over addresses builds the read request |
| PduReadWrite.EncodeWriteVarRequest | wire/pdu_rw.go:320-340 | the append-and-pad steps build the write request |
| PduReadWrite.RequestSizes | wire/pdu_rw.go:192-195 | the two overhead constants are the true lengths, padding included, and requests carry their reference |
| PduReadWrite.NormalizeResponseDataLength | wire/pdu_rw.go:221-241 | which transport sizes are accepted, and the byte count: the fewest bytes that hold the bits, or the octets themselves |
| PduReadWrite.ItemWindow | wire/pdu_rw.go:251-290 | an item is accepted exactly when the data holds a whole one there; it is what its window says, data on success only, and the next starts at the same parity |
| PduReadWrite.ParseReadVarResponse | wire/pdu_rw.go:294-317 | the item loop, with its early errors |
| PduReadWrite.ReadResponseRoundTrip | wire/pdu_rw.go:251-317 | serializing any item list (fill byte after odd payloads, optional after the last) and parsing it returns the list, data on success codes only |
| PduReadWrite.AcceptedResponseIsTiled | wire/pdu_rw.go:251-317 | any accepted input has exactly `param[1]` items in disjoint, ordered, in-bounds windows starting at even offsets |
| Plc.DecodeReadRequest | wire/pdu_rw.go:171-209 | an independent decoder reads every read request back, modulo the widths of the wire fields |
| Plc.DecodeWriteRequest | wire/pdu_rw.go:171-340 | and every write request, its value cut modulo 8192 bytes; with more than 65530 bytes the frame is unreadable |
| Plc.PlcAnswersRead | client/readwrite.go:122-153 | what the client makes of the device's answer to a read: the addressed bytes, or exactly its refusal |
| Plc.RefusalIsNotData | wire/pdu_rw.go:251-262 | a refused item is the refusal with its code if its transport size is known, and a protocol error without it otherwise |
| Plc.PlcAnswersWrite | client/readwrite.go:229-238 | the device stores the chunk exactly when it acknowledges it |
| Plc.PlcEchoes | client/client.go:250-252 | the device answers every request with that request's reference |
| Plc.WriteChunkLands | client/readwrite.go:207-239 | on any connection an accepted chunk was delivered, and a delivered one lands exactly if its range exists and its length fits the bit count |
| PduBlocks.RequestsCarryTheirRef | wire/pdu_blocks.go:97-186 | upload requests carry the reference they were built with |
| PduBlocks.UploadResponseRoundTrip | wire/pdu_blocks.go:196-215 | a segment as a device sends it is parsed back, with its done mark |
| Tsap.TsapRoundTrip | wire/cotp.go:18-36 | a TSAP is derived exactly for racks 0 to 7 and slots 0 to 31, and decodes back to connection type (modulo 256), rack and slot |
| Tsap.PackingIsBitwise | wire/cotp.go:13-15 | for every rack and slot byte the packed byte is the masked rack shifted left by five, or-ed with the masked slot |
| Link.Transfer | client/client.go:224-234 | one send and one receive: what can be delivered, and that a taken reply is the oldest unread one |
| Exchange.SendReceive | client/client.go:209-271 | at most one frame is sent and one reply taken; the result is what that reply means |
| Exchange.CounterWrapKeepsRef | client/client.go:203-205 | the 32-bit counter's wrap does not disturb the 16-bit references |
| Exchange.StaleAcceptedExactly | client/client.go:250-252 | a stale reply is accepted if and only if the reference is 0 or the counter went round a whole number of times |
| Exchange.LagBlocks | client/client.go:250-252 | inside the window, with a non-zero reference, nothing is accepted while a reply is unread |
| Exchange.StampsKept | client/client.go:203-271 | which requests are still unanswered, and under which references, is kept by every exchange |
| Replies.AcceptedExactly | client/client.go:236-268 | a reply is accepted if and only if it is a data TPDU holding a whole frame with the expected reference (or none expected) and both error bytes zero; its two sections are the result, and otherwise the error is the one its bytes call for |
| Replies.AcknowledgementMeans | client/client.go:236-268 | an acknowledgement as a device sends it comes to its sections if and only if its error class and code are 0, and to that error otherwise |
| Replies.DeliveredAcknowledgement | client/client.go:209-271 | so does the exchange whose request is delivered to that device |
| Replies.ExchangeByEvent | client/client.go:209-234 | what every exchange comes to, by the size check and the I/O event: nothing sent, a reply left unread, or the oldest unread reply |
| Correlation.AcceptedAnswersItself | client/client.go:203-271 | over whole runs, every accepted reply is the device's answer to that same request |
| Correlation.LaggedRunFails | client/client.go:203-271 | once a reply is unread the lag never shrinks and every later exchange fails |
| Correlation.UnreadReplyPoisonsTheRest | client/client.go:203-271 | the same from the first point of a run at which a reply is unread |
| Correlation.NoZeroIsShort | client/client.go:203-205 | references without a 0 span fewer than 65536 requests |
| Correlation.OneUnreadReplyCanBeTakenForAnother | client/client.go:203-271 | a concrete device, from the dial on: one unread reply, 65535 failed sends, and the stale reply is accepted |
| ReadWrite.PlanReadChunks | client/readwrite.go:290-308 | the planning loop |
| ReadWrite.PlanIsExact | client/readwrite.go:290-308 | chunks are positive, at most the limit, and sum to the total |
| ReadWrite.PlanIsFullBeforeLast | client/readwrite.go:290-308 | all chunks but the last are full |
| ReadWrite.PlannedWritesFitExactly | client/readwrite.go:203-207 | every padded write request of a plan passes the size check if and only if a condition on PDU size and length holds |
| ReadWrite.PlannedReadsFitExactly | client/readwrite.go:90-97 | exactly which PDU sizes let every read request pass, and exactly when the replies to all planned chunks fit too, both on the frames themselves |
| ReadWrite.EndsNeverSucceeds | client/readwrite.go:105-153 | a chunk that ends the read never reports success |
| ReadWrite.ReadChunksOutcome | client/readwrite.go:95-168 | a read's result is the concatenation of its chunk answers and their classification, or a failure |
| ReadWrite.ReadSuccessExactly | client/readwrite.go:95-184 | without over-long replies: success if and only if every chunk came back full, and then the data is the range |
| ReadWrite.SuccessMeansFullExactly | client/readwrite.go:95-184 | with any replies: success and every chunk being full agree if and only if no reply was too long or all together were too short |
| ReadWrite.LaggedReadFails | client/readwrite.go:68-169 | a read with something to read, begun while a reply is unread, never succeeds and returns no byte |
| ReadWrite.LaggedWriteFails | client/readwrite.go:188-241 | nor does a write with something to write |
| Replies.ChunkSizes | client/readwrite.go:90-97 | every chunk but the last is the PDU size less 24 for a read, less 28 for a write, or 200 bytes where that leaves nothing |
| Replies.ReadChunkByEvent | client/readwrite.go:105-153 | what every chunk of a read comes to, by the context, the connection, the size check, the I/O event and the reply's bytes: bytes, or status, return code and whether the bytes before are kept |
| Replies.FailedReadExactly | client/readwrite.go:99-168 | a read that some chunk ends returns that chunk's status, return code and cause, and the bytes of the chunks before it where they are kept |
| Replies.CompletedReadExactly | client/readwrite.go:155-184 | a read whose chunks all bring bytes returns all of them, and is empty, short or successful by their number |
| Replies.WriteChunkByEvent | client/readwrite.go:207-239 | what every chunk of a write comes to; it is acknowledged exactly by an answer to function 5 whose first data byte is 0xFF |
| Replies.WriteEndsExactly | client/readwrite.go:188-241 | a write sends its chunks in order up to the first that is not acknowledged and reports what that one came to; no error exactly if all are |
| Replies.RefusedAddresses | client/readwrite.go:68-71 | reads and writes refuse an address, doing nothing, exactly if its start, its size or a data block's number is negative |
| ReadAfterWrite.OnlyTheRangeChanges | client/readwrite.go:207-240 | other areas and other offsets keep their bytes |
| ReadAfterWrite.WriteLandsAsPrefix | client/readwrite.go:207-240 | for every PDU size and link: memory is the old one with a prefix of the data, a whole number of chunks; a write reported as done has landed whole unless its range does not exist; where chunks can exceed 8191 bytes, no unread reply may carry the next reference |
| ReadAfterWrite.LongChunkCanLeaveAHole | client/readwrite.go:207-240 | why: with reference 0 next, a good acknowledgement unread and a chunk of 8192 bytes, the next chunk lands beyond a hole |
| ReadAfterWrite.AcknowledgedChunksLand | client/readwrite.go:207-240 | begun with nothing unread: the prefix is the acknowledged chunks plus at most the one in flight |
| ReadAfterWrite.ReadLeavesMemory | client/readwrite.go:68-169 | no read changes the device, whatever its range, the link and the replies unread before |
| ReadAfterWrite.ReadSeesMemory | client/readwrite.go:68-169 | success means the requested range; of replies unread before, only that the next reference is not 0 and not theirs |
| ReadAfterWrite.ReadAfterWrite | client/readwrite.go:68-241 | whatever the link does, and with replies unread under other references: write without error, read with success, then the data is what was written and nothing else changed |
| ReadAfterWrite.ReadAfterWriteSucceeds | client/readwrite.go:68-241 | on a link that delivers, both do succeed under the conditions the two next rows show to be exact |
| ReadAfterWrite.WriteSucceedsExactly | client/readwrite.go:203-240 | on such a link a write with something to write succeeds if and only if its padded requests fit the PDU, no chunk exceeds 8191 bytes, and the range exists |
| ReadAfterWrite.ReadSucceedsExactly | client/readwrite.go:90-168 | and a read if and only if its requests fit, no chunk exceeds the longest item of the device, and the range exists |
| EndToEnd.SessionIsQuiet | client/client.go:137-188 | every session whose TSAPs lead to the device, over any link, starts with nothing unread, its memory untouched, and the smaller of the two PDU sizes |
| EndToEnd.PlcAlwaysAnswers | client/client.go:137-188 | where the device is alone, all TSAPs lead to it |
| EndToEnd.ConnectWriteRead | client/client.go:137-188 | connect, write, read as one run: the session opens, both transfers succeed with the PDU size it negotiated, and the read brings the bytes written |
| EndToEnd.ConnectThenWrite | client/client.go:137-188 | over any link: what the first write of a session leaves behind is a prefix of its data |
| EndToEnd.ConnectThenScan | client/rangescan.go:68-115 | a scan in a session just opened completes, and every probe tells exactly what of the memory is there |
| EndToEnd.WriteLeavesAHole | client/readwrite.go:207-240 | a concrete run from the dial on: a one-byte write times out, the next write leaves a hole of 8191 bytes |
| EndToEnd.DecodeSetupRequest | wire/pdu_setup.go:6-16 | the device reads every setup request back, parameters modulo 65536 |
| FarAddresses.AddressesWrap | wire/pdu_rw.go:171-189 | a read or write of any accepted address is, in outcome and on the wire, one of the address modulo 2^21 bytes and 65536 blocks |
| FarAddresses.FarWriteLands | client/readwrite.go:188-241 | so that is where a write beyond those limits lands |
| ReadAfterWrite.OverlongReplyHidesAnEmptyChunk | client/readwrite.go:155-184 | a concrete device, from the dial on, whose over-long second reply hides an empty first one |
| Upload.UploadIsExact | client/blocks.go:140-233 | returned data is the in-order concatenation of the device's answers to the session's first n requests, only the last marked done |
| Upload.UploadReturnsTheBlock | client/blocks.go:175-226 | so a device's segments up to and including the first done one, none missing or repeated |
| Upload.TryChunkTakesNext | client/blocks.go:178-204 | a segment accepted after any retries is the oldest unread reply |
| Upload.UploadWireTrace | client/blocks.go:144-170 | the wire shows the start, this session's segment requests, and then exactly one end-upload, missing exactly when its attempt was blocked |
| Upload.CleanupSendsOnce | client/blocks.go:158-170 | the end-upload frame goes out exactly unless it exceeds the PDU size, cannot be built or fails to send |
| Upload.UploadSucceedsExactly | client/blocks.go:140-233 | on a link that delivers: success if and only if a session opens whose requests fit, the first done segment is among 4096, and there is data up to it |
| Upload.LaggedChunkFails | client/blocks.go:178-208 | while a reply is unread no attempt at a segment succeeds |
| Upload.LaggedUploadFails | client/blocks.go:140-233 | an upload begun while a reply is unread never returns data |
| Upload.UploadLeavesNothingUnread | client/blocks.go:175-232 | without reference 0, an upload that returns data retried past no unread reply |
| Upload.RetryWithZeroRefSucceeds | client/blocks.go:178-204 | with reference 0 a retry past an unread reply can succeed: a concrete device, from the dial on |
| Replies.AttemptByEvent | client/blocks.go:178-204 | what every attempt at a segment comes to, by the context, the size check, the I/O event and the reply's bytes; only failures of I/O and oversized frames are retried |
| BlockStore.DecodeStartRequest | wire/pdu_blocks.go:97-146 | an independent decoder reads block type and number back from every start request: the six types as they are, any other as a DB, and the number its five digits write |
| BlockStore.DecodeSessionRequest | wire/pdu_blocks.go:161-186 | and what is asked for and the session, cut to 255 bytes, from every later one |
| BlockStore.TrimSpaceExactly | wire/pdu_blocks.go:157-157 | trimming takes away the blanks at both ends of a session's name and nothing else |
| BlockStore.UploadIsTheBlock | client/blocks.go:140-233 | against a device that stores blocks by type and number, over any link: an upload that returns data returns the bytes of the block asked for, all its segments in order, and the device has it |
| BlockStore.UploadFromStoreExactly | client/blocks.go:140-233 | over a link that delivers: the result of every upload, for each kind of failure and on success |
| BlockStore.ConnectThenUpload | client/blocks.go:140-233 | the same from the dial on: the session opens, and the upload brings the block exactly if the device has it, in 1 to 4096 segments with some data |
| BlockStore.StoreEchoes | client/client.go:250-252 | that device answers every request with its reference |
| Handshake.ConnectsExactly | client/handshake.go:26-49 | the connection is accepted exactly when the context allows it and the reply is a CC |
| Handshake.SetupRoundTrip | client/handshake.go:53-95 | a setup reply as a device sends it is read back: both queue sizes and the PDU size |
| Handshake.SessionIsNegotiated | client/client.go:137-174 | a session carries its pair and TSAPs, its wire is the two requests, and its replies are the CC and the setup it remembers |
| Handshake.BrutePairsExactly | client/client.go:110-122 | the exhaustive search tries racks 0 to 3 by slots 0 to 5, each pair once, in increasing order |
| Handshake.AutoConnectTriesInOrder | client/client.go:109-135 | k attempts in order fail, then the first that succeeds gives the session; it fails exactly when no pair is left or the context is done, with that error |
| Failures.AttemptByEvent | client/client.go:137-174 | how every attempt ends, with the session's values or which error, by the dial, the TSAPs, and the I/O event and reply bytes of each of its two steps |
| Host.TSAPsNameThePair | client/client.go:150-165 | TSAPs given are used as they are; derived ones exist for racks 0 to 7 and slots 0 to 31 only, are 0x0100 locally, and remotely type 3 with the pair in the low byte |
| Host.ConnectsToTheCpu | client/client.go:137-188 | against a host that selects its CPU by the TSAP: every session is with the CPU at the pair asked for and has its PDU size; one opens whenever the two steps are delivered and the CPU is there |
| Host.AutoConnectFindsTheFirstCpu | client/client.go:109-135 | auto-connect opens a session with the first CPU in its order, and fails exactly if there is none |
| Host.AutoConnectPrefers | client/client.go:124-134 | without the exhaustive search that order is 0/1, 0/2, 0/0, 1/1, 0/3 |
| ClientObject.Client.constructor | client/client.go:56-62 | a new client has no connection and no negotiated values |
| ClientObject.Client.Negotiate | client/client.go:150-174 | the handshake on a dialled connection; on any failure the connection is closed |
| ClientObject.Client.Install | client/client.go:175-187 | the swap: afterwards the new connection is the only open one |
| ClientObject.Client.ConnectOnce | client/client.go:137-188 | replace only on success: a failed attempt leaves connection and fields unchanged and leaks nothing |
| ClientObject.Client.TryPair | client/client.go:113-118 | one turn of the auto-connect loops |
| ClientObject.Client.AutoConnect | client/client.go:109-135 | installs exactly the first success, or changes nothing |
| ClientObject.Client.Connect | client/client.go:64-107 | validation, then either form, with the session of its attempt; of all connections ever opened exactly the current one is open; what operations then work with is what the interleaved runs take a connect to leave |
| ClientObject.Client.Close | client/client.go:190-281 | nothing stays open and every negotiated value is zero; operations then find what the interleaved runs take a close to leave |
| ClientObject.Client.NextPDURef | client/client.go:203-205 | the reference is the number of requests issued, cut to 16 bits |
| ClientObject.Client.SendReceive | client/client.go:209-271 | the method does to the connection what the exchange function says |
| ClientObject.Client.PerformCOTPConnect | client/handshake.go:26-49 | the method is the handshake function of its link |
| ClientObject.Client.PerformS7Setup | client/handshake.go:53-95 | the method is the setup function of its link |
| ClientObject.Client.ReadChunk | client/readwrite.go:105-155 | one turn of the read loop |
| ClientObject.Client.ReadArea | client/readwrite.go:68-169 | the loop's result and final state are those of the read function |
| ClientObject.Client.WriteChunk | client/readwrite.go:207-239 | one turn of the write loop |
| ClientObject.Client.WriteArea | client/readwrite.go:188-241 | the loop's result and final state are those of the write function |
| ClientObject.Client.UploadAttempt | client/blocks.go:178-204 | one attempt of the retry loop |
| ClientObject.Client.UploadSegment | client/blocks.go:178-208 | the retry loop |
| ClientObject.Client.UploadSegments | client/blocks.go:172-226 | the segment loop |
| ClientObject.Client.UploadBlock | client/blocks.go:140-233 | the whole upload with its deferred end-upload |
| Operations.AdvanceKeepsRest | client/readwrite.go:68-241 | cutting an operation at its requests does not change what the whole operation comes to |
| Operations.AdvanceKeepsPlan | client/readwrite.go:72-97 | from planning to the last chunk an operation works with one PDU size |
| Operations.StretchesFall | client/blocks.go:175-223 | every stretch brings its operation nearer to the end |
| Operations.AdvanceKeepsTrail | client/blocks.go:144-204 | past its start, an upload has put on the wire only its start and its own segment requests |
| Sessions.ConnectInstallsTheSession | client/client.go:175-200 | for every attempt: connecting leaves its session's connection and PDU size, a failed one leaves the state as it was, closing leaves neither connection nor PDU size |
| Serial.EveryRunIsSequential | client/client.go:92-93 | every interleaving ends in the state and outcomes of a sequential order that respects each goroutine's program |
| Serial.OneInsideWithItsPlan | client/readwrite.go:72-88 | never two goroutines inside, and the one inside keeps the PDU size its chunks were planned for |
| Serial.UploadInProgressOwnsTheWire | client/blocks.go:144-170 | at every moment of every interleaving, while a goroutine is inside an upload the shared wire is what it found at the mutex, the start, and its own segment requests |
| Serial.UploadsOwnTheWire | client/blocks.go:144-170 | once it has returned, its start, its segment requests and its one end-upload stand together on the shared wire of the run, as long as that connection is not replaced |
| Sessions.TransfersUseTheSession | client/client.go:175-188 | whatever goroutines follow a connect: every transfer logged while its session is current worked over that connection with the PDU size its handshake negotiated |
| UnreadReplies.NothingSucceedsWhileOwing | client/client.go:203-271 | once a reply is unread, whatever goroutines follow: every transfer begun on that connection inside the window, with a next reference that is not 0, comes to nothing, and the connection never catches up |
| UnreadReplies.UnreadRepliesAreTracked | client/client.go:203-271 | in every reachable state the unread replies and the references of their requests can be accounted for |
| Operations.AdvanceKeepsTracked | client/client.go:203-271 | every stretch of every operation keeps that account |
| Operations.OwingTransferFails | client/readwrite.go:68-241 | a read, write or upload begun while a reply is unread comes to nothing |
| Serial.NoDeadlock | client/client.go:92-93 | an unfinished run can always go on |
| Serial.RunsEnd | client/client.go:92-93 | the number of steps of any run is bounded by the work at its start |
| Serial.InvStep | client/client.go:275-280 | every step keeps mutual exclusion and agreement with the sequential run |
| Cidr.IncIsPlusOne | client/discover.go:281-288 | the byte-carry increment adds one modulo 256 to the number of bytes |
| Cidr.IncIP | client/discover.go:281-288 | the loop over the address bytes, in place |
| Cidr.ContainsIsBlock | client/discover.go:270-272 | an address is in a prefix exactly when its number lies in the aligned block |
| Cidr.StreamCIDR | client/discover.go:222-255 | uninterrupted it emits exactly the host list, in order; interrupted, a prefix of it up to the refused one |
| Cidr.StreamRefusesExactly | client/discover.go:230-237 | an IPv4 prefix is refused exactly if it has more than 2^20 addresses |
| Cidr.ExpandCIDR | client/discover.go:260-279 | the materialised list is the same host list, also where the address wraps |
| Cidr.ExpandStopsExactly | client/discover.go:270-272 | the loop guard can fail if and only if the prefix is not /0 |
| Cidr.HostsAreConsecutive | client/discover.go:238-253 | the i-th host by number, and how many there are |
| Discover.ProbeS7 | client/discover.go:290-359 | the nested loops with cap and cancellation |
| Discover.ProbeFindsFirst | client/discover.go:290-359 | a probe makes attempts in order, which fail, and then reports the pair that connects, or that none is left, the cap is reached, or the context is done; so uncancelled it finds the first connecting pair the cap allows |
| Discover.EachIndexOnce | client/discover.go:157-205 | at every moment of every run an index is in exactly one of queue, worker, out, collected, dropped once produced, and nowhere before |
| Discover.InvStep | client/discover.go:157-205 | every step of every goroutine keeps the pool invariant |
| Discover.NoDeadlock | client/discover.go:157-205 | until it returns, some goroutine can move without cancellation |
| Discover.RankFalls | client/discover.go:157-205 | every step uses up work, so every schedule ends |
| Discover.DiscoverRefinesScan | client/discover.go:133-211 | every schedule ends; uncancelled, entry i is the probe of the i-th address; cancelled, each entry is empty or an interrupted probe of its own address, which reports only a pair that connected |
| Discover.ScanCoversThePrefix | client/discover.go:133-211 | entry i by address number, for a streamed prefix |
| Host.TruthfulReports | client/discover.go:335-353 | whatever the device: a reported entry comes from a connection to its own address whose first frame asked for the reported TSAP, which names the reported pair; a CC answered it, and the setup reply named the PDU size |
| Host.ScanFindsTheFirstCpu | client/discover.go:133-211 | the entry of a host in an uncancelled scan is the first CPU in the order of the pairs, within the cap, with its TSAP and PDU size; nothing exactly if there is none |
| RackSlotProbe.BuildJobs | client/probe.go:171-176 | the nested loops build the grid |
| RackSlotProbe.GridIsExact | client/probe.go:171-176 | the jobs are all pairs of the ranges in strictly increasing order |
| RackSlotProbe.MaxJobs | client/probe.go:178-187 | the attempt cap |
| RackSlotProbe.TsapsTellPairsApart | wire/cotp.go:13-36 | derived TSAPs of distinct pairs differ and decode back to the pair |
| RackSlotProbe.InvStep | client/probe.go:198-254 | every step keeps: stored entries are their own probes, zero elsewhere, the semaphore bound, at most one late start |
| RackSlotProbe.ProbeFanOut | client/probe.go:198-256 | every schedule ends without blocking; uncancelled, entry k is the probe of the k-th pair; cancelled, attempted entries are (possibly interrupted) probes of their own pairs, the rest zero; at most one probe starts after a cancellation |
| RackSlotProbe.ValidAreTheConnectable | client/probe.go:258-287 | the valid list of an uncancelled run is, in order, the tried pairs to which a client connects (and whose follow-up confirms, when strict) |
| RackSlotProbe.StopsOnFirstExactly | client/probe.go:242-253 | a run is cancelled exactly if the caller did it or, when it is to stop on the first, a stored result counts as valid; after that at most one probe starts |
| Host.ValidAreTheCpus | client/probe.go:160-296 | on a host, the valid list of an uncancelled run that is not strict is, in order, the tried pairs at which there is a CPU, with its PDU size |
| RackSlotProbe.Summarize | client/probe.go:258-287 | the two summary loops |
| RackSlotProbe.ValidMatchesCounters | client/probe.go:260-287 | `Valid` is the ordered filter, and its length is the matching counter |
| ProbeOne.ProbeOne | client/probe.go:421-515 | the stages with their statuses, early exits and timeouts |
| ProbeOne.ProbeAgreesWithConnect | client/probe.go:436-514 | a pair counts as accepted exactly when connecting with its TSAPs would have succeeded, with the same PDU size; strict adds the follow-up |
| ProbeOne.RejectedExactly | client/probe.go:442-490 | `rejected` if and only if no TSAP can be built, the device refuses the setup, or its setup reply is too short; an explicit refusal exactly in the second case |
| Failures.ProbeByEvent | client/probe.go:421-515 | the status of every probe, by the dial, the TSAP, and the I/O event and reply bytes of its two steps |
| Host.ProbeTSAPs | client/probe.go:437-462 | the TSAPs a probe asks for and reports: the caller's own where given, else 0x0100 and the one that names the pair |
| Failures.ReportedStage | client/probe.go:421-515 | how far a report says the probe got, with what confidence, for each status |
| Failures.ConfirmsExactly | client/probe.go:349-390 | which replies confirm: an answer under reference 2 without an error whose data holds an SZL header |
| Failures.ConfirmationNamesItsQuery | client/probe.go:349-419 | a confirmation is named after the SZL that the last query's frame asks for |
| Failures.FollowUpTriesInOrder | client/probe.go:391-418 | over a link that delivers: each kind makes its own query, "any" the three in order until one is confirmed, after which it is named; every other kind none |
| ProbeOne.TerseDeviceIsReportedAsRejected | client/probe.go:475-487 | a concrete device that refuses nothing and is reported as rejected |
| ProbeOne.ConfirmedByIsRightExactly | client/probe.go:349-419 | a confirmation is backed by a confirming reply, and it names the query answered if and only if no reply was left unread |
| ProbeOne.StrictConfirmsExactly | client/probe.go:342-344 | which settings of `Confirm` can confirm anything at all |
| ProbeOne.ConfirmationCanBeCreditedWrongly | client/probe.go:405-414 | a concrete device and timeout, from the dial on, that credit the wrong query |
| CompareRead.InvStep | client/compare.go:81-119 | every step keeps the fan-out invariant |
| CompareRead.MismatchInHandshakeIsTransportError | client/handshake.go:81-83 | a concrete device whose reference mismatch in the handshake is reported as a transport error, unlike one in any later request |
| CompareRead.EverySlotOnce | client/compare.go:81-119 | under any schedule, parallelism and cancellation every slot is written exactly once with its own candidate's entry; uncancelled, the entries are those of connecting and reading one candidate after another |
| CompareRead.VerdictOfTheRun | client/compare.go:122-149 | so the flag of an uncancelled run says whether connecting to each candidate in turn would succeed and read the same everywhere |
| Failures.ComparedByEvent | client/compare.go:100-116 | the status of every comparison read whose connection does not open, by the same events and replies |
| Host.ComparedOnHost | client/compare.go:100-116 | on a host, a comparison read succeeds exactly if the candidate's own CPU has the range, and brings that CPU's bytes |
| Host.CompareReadsEveryMemory | client/compare.go:81-150 | so the flag of an uncancelled run holds if and only if there are two candidates or more, each has a CPU with the range, and all ranges hold the same bytes |
| CompareRead.RackSlotInsensitive | client/compare.go:122-149 | the flag holds if and only if there are two candidates or more, all succeeded, and all data agree |
| RangeScan.ProbeOffsets | client/rangescan.go:86-89 | the offsets are start, start + step, ... below the end |
| RangeScan.ProbeOneOffset | client/rangescan.go:117-227 | the reads of one offset on the client, with every cancellation point, and their verdict |
| RangeScan.Verdict | client/rangescan.go:152-224 | inconclusive exactly on disagreement within the repeats or within the retries; stable and all-zero say what all repeats were |
| RangeScan.ProbeUsesEveryRead | client/rangescan.go:117-227 | a probe makes the repeat reads and then, with retries, as many more plus one, all of its window; it brings the last repeat, inconclusive exactly if two repeats or two retries differ; stable and all-zero say what the repeats were |
| RangeScan.StoppedProbe | client/rangescan.go:125-139 | a probe the context stops before any of its reads brings no bytes: a timeout past the deadline, else a transport error |
| RangeScan.WindowBeforeTheArea | client/rangescan.go:140-144 | a window that begins below 0 is a transport error, and nothing is sent for it |
| RangeScan.JudgeRepeats | client/rangescan.go:204-224 | the stability and all-zero loops |
| RangeScan.ProbeReadableRanges | client/rangescan.go:68-115 | the scan on the client: errors, and on success one probe per offset, consolidated |
| ScanOnDevice.ScanFindsTheMemory | client/rangescan.go:68-227 | on a working link every probe succeeds if and only if its window exists, with just those bytes, and is refused otherwise, never inconclusive; the readable spans cover exactly the probed windows that exist, and the refused ones exactly those that do not |
| ScanOnDevice.WorkingRead | client/readwrite.go:68-169 | on a working link a read succeeds if and only if its range can be obtained, with just those bytes, and otherwise returns the refusal of its first chunk that cannot be served |
| ScanOnDevice.RefusedReadExactly | client/readwrite.go:145-153 | that refusal: status rejected, the device's return code, and the bytes of the chunks before; a protocol error without a code if the client does not know the refusal's transport size |
| ScanOnDevice.FaithfulVerdict | client/rangescan.go:152-224 | repeated reads of unchanged memory agree: always stable, and all-zero exactly if the window exists and holds zeros |
| RangeScan.MergeValues | client/rangescan.go:258-289 | a merged value exists exactly when some probe has one and all that have one agree |
| RangeScan.NextSpan | client/rangescan.go:248-290 | one run: it carries on inside and not past its end |
| RangeScan.ConsolidateSpans | client/rangescan.go:231-303 | the spans are a maximal partition of the observations, and the summary is filtered from them |
| RangeScan.EachObservationInOneSpan | client/rangescan.go:247-293 | every observation lies in exactly one span |
| RangeScan.RunsConcatenate | client/rangescan.go:247-293 | concatenating the runs gives back the observation list |
| RangeScan.NeighboursCannotMerge | client/rangescan.go:253-256 | neighbouring spans differ in status or are not one step apart |
| RangeScan.PartitionIsUnique | client/rangescan.go:247-293 | there is only one such partition |
| RangeScan.SummaryIsPermutationExactly | client/rangescan.go:242-300 | the four lists together are a permutation of the spans if and only if every probe came to one of the eight statuses |
| RangeScan.SummaryByStatus | client/rangescan.go:295-300 | which spans each list holds, in the order of the scan; the failed ones by status: rejected, timed out, transport errors, protocol errors, short reads |
| RangeScan.SpansCoverTheProbes | client/rangescan.go:247-293 | for step at most the probe size, each status's spans cover exactly what its probes read |
| RangeScan.CoverageHoldsExactly | client/rangescan.go:72-113 | on a scan, coverage is exact if and only if step is at most the probe size or no probe carries on the one before it |
| RangeScan.NothingMergesExactly | client/rangescan.go:253-256 | no probe carries on the one before it if and only if every probe has a span of its own |
| RangeScan.SpansTileTheScan | client/rangescan.go:72-113 | with step equal to the probe size the spans abut and tile the scanned range |

## Left out

- Sockets, dialing, deadlines, and the TPKT and COTP codecs: `Link` delivers frames whole; user data is bounded by what one TPKT frame can carry, and a longer frame fails to send.
- Clocks, delays, jitter, rate limits, logging: a delay is one more point at which the context may turn out to be done.
- Context errors are not required to stay set once reported, and an operation's end-upload uses the same script of link events; every real behaviour is among those allowed.
- Error messages, warnings, `Message` fields and enum names; errors are datatypes that keep what the code branches on.
- Identification heuristics, SZL listings, block lists and block info (`client/szl.go`, the other functions of `client/blocks.go`), the typed read helpers of `model/codec`, option setters, `isPortOpen` and request validators other than address, rack/slot and range request: only easy or unspecified claims.
- The semantics of a failed TSAP construction for the local side: its constant arguments are valid, so the branch cannot be taken.
- Session ids are trimmed of ASCII white space only.
- Nil and empty slices are not told apart.
- The byte-array device reports at most 8191 bytes per item, the longest length that fits when counted in bits, also when it counts in bytes.
- The interval and retry pauses of a range probe: like other delays, one more point at which the context may turn out to be done.
- The read lock on the session fields: the fields it guards are written only under the request mutex.
- In `Operations` and `Serial`, dialling and handshake of `Connect` are one parameter, because they happen on a connection nobody else has; `Client.Connect` models them in full.
- The reserved fields `Retries` and `RetryDelay` of the rack/slot probe and the `Flaky` status, which no code sets.
- Machine-integer overflow of Go `int` beyond the wire fields.
- Cidr.ExpandCIDR: excludes /0, for which the source's loop does not end, and IPv4-mapped IPv6 prefixes, which `streamCIDR` rejects.
