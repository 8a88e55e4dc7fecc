# A model of the train control protocols

This project models the protocol code of a train control system in Dafny and proves what it is for. It covers the
OpenLCB/LCC stack from the CAN frame up to the transfer of whole memory spaces, the DCC signal decoder, the layout
of CDI descriptions in memory, and the polling of an NCE cab bus. Verify it with `dafny verify dfyconfig.toml`.

Code that changes things step by step is modelled by classes and methods with the same fields, branches and loops.
Each method is proved against a specification function, and the theorems are about those functions and about whole
runs of them.

| file | models |
|---|---|
| `Basics.dfy` | what several of the modules need |
| `CanId.dfy` | CAN identifiers and frames |
| `AliasNegotiation.dfy` | how any number of nodes agree on distinct aliases (section 6.2.1 of the OpenLCB CAN Frame Transfer Standard) |
| `Datagram.dfy` | cutting datagrams into frames and putting them together |
| `MemoryProtocol.dfy` | the datagrams of the memory configuration protocol |
| `MemoryMap.dfy` | the memory of a node |
| `CdiText.dfy` | the generated CDI |
| `MemoryServer.dfy` | answering requests for memory |
| `RemoteMemory.dfy` | making requests for memory |
| `Node.dfy` | a node with both, and the dispatch between them |
| `EndToEnd.dfy` | whole conversations between two nodes |
| `SegmentMirror.dfy` | the copy of a memory space that the user interface keeps |
| `Download.dfy` | reading and writing whole spaces over the bus |
| `RequestQueue.dfy` | the queue of memory requests, as an abstract machine |
| `RequestRuns.dfy` | how often requests are sent, and why the queue drains |
| `Connection.dfy` | the same with the lists of the program |
| `DccDecoder.dfy` | phase recovery and framing of the DCC signal (section A of NMRA S-9.1 and S-9.2) |
| `CdiLayout.dfy` | the addresses of the values of a CDI |
| `CdiValues.dfy` | the values themselves, as they are stored and shown |
| `GridConnect.dfy` | CAN frames as text |
| `NodeInfo.dfy` | Simple Node Information |
| `CabBus.dfy` | the order in which cabs are polled |

## What holds only under a condition

The code does not do what one would expect in the cases below. The model follows the code; each case is a lemma
that shows it for all inputs of its kind, and the theorem next to it says when things go well.

- An alias can be held twice if a node claims without waiting (`WithoutWaitingAliasesCollide`), or starts over while
  the bus refuses its first probe (`WithoutProbingAliasesCollide`).
- The test for a CID looks at the frame number only and not at bit 27 (LCC/lcc.c:64). No message of a claim is
  mistaken for a CID (`AnswersAreNotCids`), but messages with frame type 4 to 7 would be.
- A datagram arrives as it was sent if and only if every frame in between passes: one that is no part of a datagram
  for this node, that starts one while the node knows that it is busy, or whose bytes do not get in and that ends
  nothing (`PassesExactly`, `ArrivesExactlyIf`). Control frames are no part of a datagram: they go to another handler
  (LCC/lcc.c:190-193). A sender who goes on after a rejection takes over the datagram of
  the other (`IntruderThatGoesOnWins`).
- An information request is answered and then rejected if and only if the space is not the CDI and the application
  of the node has registered no function for datagrams (`InfoIsRejectedExactly`), as the user interface does
  (GUI/lcc/lccconnection.cpp:184). The rejection ends a request that follows at once if and only if it goes to the
  same node (`InfoRejectionHitsNextRequest`). The user interface waits 20 ms.
- The acknowledgement of a reply ends a request the other way if and only if that is a write or an Update Complete
  (`AcknowledgementEndsExactly`).
- The bounds check of the memory map is exact except at the end of the address space (`CheckIsExact`,
  `CheckAtTheEnd`). The model stops at an access that passes the check without lying inside the segment.
- A read of the CDI that reaches past the last address wraps around (`CdiBytesExactly`).
- A datagram for which there is some room on the bus, but not enough, is not sent; a rejection goes to the other node
  and the caller is told that all is well (LCC/lcc-datagram.c:108-112). So a write can be waited for that was never
  sent (`OutcomeExactly`, `WriteIsLostThoughOk`, `OutstandingExactly`).
- A request for which there is no room at all leaves the library waiting for an answer, so that later requests fail
  unsent (`OutcomeExactly`, `FailedSendLeavesLibraryWaiting`, `WaitingLibraryFailsEverything`).
- Answers that fit no request let a request be sent any number of times (`StrangeAnswerStartsOver`,
  `SentAnyNumberOfTimes`). With answers that fit it is three times at most. An answer that fits another request than
  the outstanding one finishes it although it was never sent (`AnswerEndsExactly`).
- A request can be over before anyone can listen (`OverBeforeSubmitReturns`). Then a range operation gives no signal
  unless another block fails; and one that is cut short after a block has failed signals twice
  (`OneSignalExactlyIf`).
- A DCC packet with a right checksum is lost if and only if it was not pumped before the next one came
  (`PumpingExactly`).
- A negative number in a spin box is stored, but shown as another one afterwards (`SpinBoxReadBackExactly`). A text that
  fills its field is cut short when it is stored again (`StoredAgainExactly`).
- A space that takes up all addresses is read as if it were empty (`EmptyExactly`).
- A block that straddles the start of a mirror is not copied into it (`StraddlingBlockBreaksAgreement`).
- A comment (DCC/dcc-decoder.c:193) says that DCC packets have six bytes. The decoder gives out packets of at most
  five, and counts preamble bits in 8 bits (`GivenExactlyIf`).
- Simple Node Information is read from a node again if and only if the buffer is empty or what is left in it begins
  with 4 and does not hold more than six strings (`ReadAgainExactlyIf`). A reply whose first byte is not 4 blocks it
  for good (`BlockedForGood`), an incomplete one spoils the next (`ReplyAfterIncomplete`).
- A cab that was heard exactly 30 rounds ago is left out of that round (`AfterTheLastAnswer`).

## Premises

- A datagram is received by a node whose alias is in 1..0xFFE and neither 0xA28 nor 0xA48, because a frame for
  such a node can be taken for a reply as well (LCC/lcc-datagram.c:214, `TakenForReplyExactly`).
- A node that takes part in conversations is permitted, and nobody else sends with its alias. Nobody sends with the
  alias 0 or is asked at it.
- What a node sends of its own accord with the form of an AMD or of an Initialization Complete names its own ID.
- The RID and the frames of a claim are taken by the bus (LCC/lcc.c:57-113 and 340-392 do not look at that).
- The bus takes every frame and keeps their order in the conversations of `EndToEnd` and `Download`.
- A CDI has less than 2^31 bytes, none of them zero.
- Segments of a CDI lie inside the 32-bit address space, and offsets and sizes are not negative.
- Segments of a memory map, and the reads and writes of them, end before the last address 0xFFFFFFFF.
- GridConnect lines are shorter than 127 characters; every printed frame is.
- Simple Node Information strings fit into 40, 40, 20, 20, 62 and 63 bytes.

## Model

| member | source | states |
|---|---|---|
| `AliasNegotiation.Context.GenerateAlias` | LCC/lcc.c:259-338 | every outcome of starting a negotiation: which alias is tried, which CID frames went out, and the state that is left when the bus refuses any of the four |
| `AliasNegotiation.Context.CheckCollision` | LCC/lcc.c:57-113 | the answer to a frame that carries the own alias: an RID for a CID, giving the alias up otherwise, and nothing at all for other aliases |
| `AliasNegotiation.CollisionExactly` | LCC/lcc.c:57-113 | an RID with the own alias goes out for a probe of it and for nothing else; any other use of the alias ends a negotiation, but does not take a permitted alias away |
| `AliasNegotiation.Context.ClaimAlias` | LCC/lcc.c:340-392 | a claim succeeds only after a completed probe with an empty transmit queue, and sends RID, AMD and Initialization Complete (for the node ID in them see `ClaimCarriesUniqueId`) |
| `AliasNegotiation.NextAliasUsable` | LCC/lcc.c:274-295 | whatever came before, the next alias is in 1..0xFFE |
| `AliasNegotiation.RetriesVisitEveryAlias` | LCC/lcc.c:284-295 | the alias after k failures is the k-th successor modulo 0xFFE, so every alias is tried before one is repeated |
| `AliasNegotiation.CidFramesCarryUniqueId` | LCC/lcc.c:305-330 | the four CID frames together give back the whole 48-bit unique ID and are all recognised as CIDs |
| `AliasNegotiation.ClaimCarriesUniqueId` | LCC/lcc.c:368-383 | of the three frames of a claim, the AMD and the Initialization Complete carry the 48-bit unique ID, big end first |
| `CanId.NodeIdReadBack` | LCC/lcc-common-internal.c:22-43 | the six bytes of a node ID, read big end first, are the ID |
| `AliasNegotiation.AnswersAreNotCids` | LCC/lcc.c:368-383 | the RID, AMD and Initialization Complete of a claim are not taken for CIDs and carry the alias |
| `AliasNegotiation.StepKeepsInv` | LCC/lcc.c:57-113 | generate, claim, delivery in any order and traffic all keep: of two nodes with the same alias, one still has a CID or a denial under way |
| `AliasNegotiation.RunKeepsInv` | LCC/lcc.c:259-392 | the same for whole runs of any number of nodes |
| `AliasNegotiation.NoDuplicateAliases` | LCC/lcc.c:259-392 | in every state that a run of any number of nodes can reach, no two permitted nodes have the same alias and every alias is usable |
| `AliasNegotiation.AnnouncementsNameTheHolder` | LCC/lcc.c:340-392 | in every state that can be reached, each AMD or Initialization Complete that is under way comes from a permitted node that has the alias, and names the unique ID of that node; so no two of them give one alias to different nodes |
| `AliasNegotiation.AlikeIdsStartAlike` | LCC/lcc.c:274-283 | nodes whose IDs end in the same 12 bits start with the same alias, so the negotiation is really needed |
| `AliasNegotiation.WithoutWaitingAliasesCollide` | LCC/lcc.h:69-70 | without the 200 ms wait there is a run, for any two nodes that start alike, in which both hold the alias |
| `AliasNegotiation.WithoutProbingAliasesCollide` | LCC/lcc.c:308-311 | starting over while the bus refuses the first CID leaves the node able to claim an alias that it never probed, and there is a run with a duplicate |
| `MemoryProtocol.WordRoundTrip` | LCC/lcc-common-internal.c:245-262 | a 32-bit word written to four bytes is read back |
| `MemoryProtocol.ReplyReadBack` | LCC/lcc-remote-memory.c:192-327 | a client reads back every reply that a node can send, with its space, address, data, error code and message, whatever was in the receive buffer before |
| `MemoryProtocol.RequestBytes` | LCC/lcc-remote-memory.c:48-190 | the bytes of every request: command, space, address big end first and what follows |
| `MemoryProtocol.ReplyBytes` | LCC/lcc-memory.c:125-300 | the bytes of every reply, with the error code and message of a rejection and the flags of space information |
| `MemoryProtocol.RepliesExactly` | LCC/lcc-remote-memory.c:192-265 | which datagrams are taken for replies, of which kind and about which space |
| `MemoryProtocol.PartialReplies` | LCC/lcc-remote-memory.c:271-318 | what a rejection that is cut short says, and when the lowest address of a space is taken to be 0 |
| `MemoryProtocol.ReadRequestData` | LCC/lcc-remote-memory.c:62-81 | the datagram of a read request, built byte by byte, is its encoding |
| `MemoryProtocol.WriteRequestData` | LCC/lcc-remote-memory.c:103-118 | the same for a write request |
| `MemoryProtocol.ReadReplyData` | LCC/lcc-memory.c:243-268 | the same for the reply to a read |
| `MemoryProtocol.FailureData` | LCC/lcc-memory.c:198-225 | the same for a rejection; a message of more than 62 bytes is left out |
| `MemoryProtocol.InfoReplyData` | LCC/lcc-memory.c:134-151 | the same for space information; the low address is there exactly if it is not 0 |
| `MemoryServer.RequestReadBack` | LCC/lcc-memory.c:428-541 | a node understands every request that a client can send: kind, space, address, count and data |
| `MemoryServer.MemoryContext.TryHandleDatagram` | LCC/lcc-memory.c:428-480 | for any bytes in the receive buffer: what is answered, what is reported, what is written, and whether the datagram counts as handled |
| `MemoryServer.CommandsExactly` | LCC/lcc-memory.c:428-500 | which datagrams are commands and of which kind, by their first bytes and length; in particular which reads of the CDI go past the memory map |
| `MemoryServer.HandledExactly` | LCC/lcc-memory.c:428-500 | exactly which datagrams a node takes for itself, and that nothing but questions about a space is answered among the others |
| `MemoryServer.OutsideIsMarked` | LCC/lcc-memory-map.c:44-90 | an access that passes the bounds check without lying inside the segment is marked, and the model answers and changes nothing |
| `MemoryServer.InfoAnswerIsExact` | LCC/lcc-memory-map.c:27-42 | the information about a space says that it is there if and only if it has a byte, which addresses have one, and that it is read-only if and only if it cannot be written |
| `MemoryServer.InfoTellsAccess` | LCC/lcc-memory-map.c:27-62 | so from that answer alone it can be told which reads and which writes will be accepted |
| `MemoryServer.RestartsExactly` | LCC/lcc-memory.c:441-462 | a node restarts for 20 A9 and is reset for 20 AA with its own ID in six bytes, and for nothing else; neither is answered or changes memory |
| `MemoryServer.MemoryContext.ReadOrWrite` | LCC/lcc-memory.c:482-541 | the part for reads and writes of the memory map, command by command |
| `MemoryServer.MemoryContext.CdiRead` | LCC/lcc-memory.c:369-388 | an unaligned read of the generated CDI from one or two 64-byte pieces |
| `MemoryMap.Map.FindSegment` | LCC/lcc-memory-map.c:15-24 | the loop finds the first segment with the space, and stops at space 0 |
| `MemoryMap.FindIsFirst` | LCC/lcc-memory-map.c:16-25 | what is found is the first segment with the space, if none before it has space 0; and nothing only if there is no such segment |
| `MemoryMap.BytesOfSpace` | LCC/lcc-memory-map.c:16-62 | the bytes of a space are those of its first segment, and a space without one has none |
| `MemoryMap.Map.ReadSegment` | LCC/lcc-memory-map.c:44-62 | the bytes of the segment, or why not |
| `MemoryMap.Map.WriteSegment` | LCC/lcc-memory-map.c:64-89 | the bytes are replaced in place in one segment and nowhere else, or nothing changes |
| `MemoryMap.CheckIsExact` | LCC/lcc-memory-map.c:52-54 | the bounds check says whether the access lies inside the segment, except exactly when the 32-bit sum wraps around to a small value |
| `MemoryMap.CheckAtTheEnd` | LCC/lcc-memory-map.c:52-54 | a segment that includes the last address allows only accesses that end exactly there |
| `MemoryMap.WriteChangesExactly` | LCC/lcc-memory-map.c:83-84 | a write changes exactly the bytes it names, in the space it names |
| `MemoryMap.WrittenIsRead` | LCC/lcc-memory-map.c:44-89 | a read of what was written gives the written bytes |
| `MemoryMap.ReadDoneExactly` | LCC/lcc-memory-map.c:44-62 | a read is carried out if and only if all of its bytes exist |
| `MemoryMap.WriteDoneExactly` | LCC/lcc-memory-map.c:64-89 | a write is carried out if and only if all of its bytes exist and the segment is writable |
| `RemoteMemory.RemoteMemoryContext.ReadSingleTransfer` | LCC/lcc-remote-memory.c:36-82 | a read request is sent only if none is outstanding, no datagram is coming in and the count is in range; the receive buffer is cleared |
| `RemoteMemory.RemoteMemoryContext.WriteSingleTransfer` | LCC/lcc-remote-memory.c:84-129 | the same for a write, which also remembers where it goes; well for the caller as soon as one frame of it would fit |
| `RemoteMemory.RemoteMemoryContext.SendUpdateComplete` | LCC/lcc-remote-memory.c:131-160 | the same for Update Complete |
| `RemoteMemory.RemoteMemoryContext.GetAddressSpaceInformation` | LCC/lcc-remote-memory.c:173-189 | the information request, which waits for nothing |
| `RemoteMemory.RemoteMemoryContext.TryHandleDatagram` | LCC/lcc-remote-memory.c:192-327 | which datagrams are taken for the answer, and what is reported |
| `RemoteMemory.RemoteMemoryContext.HandleOk` | LCC/lcc-remote-memory.c:361-389 | a write accepted with no reply pending is done, an Update Complete is done when accepted |
| `RemoteMemory.RemoteMemoryContext.HandleRejected` | LCC/lcc-remote-memory.c:391-404 | a rejection from the asked node ends the request, any other is ignored |
| `RemoteMemory.EndsExactlyOnce` | LCC/lcc-remote-memory.c:192-404 | a request ends with exactly one event that says so, and is outstanding exactly until then |
| `RemoteMemory.AcceptanceEndsAsAsked` | LCC/lcc-remote-memory.c:361-390 | after anything that has not ended a request, an acceptance with no reply pending ends a write, which is reported with the space and the address it was made with; any acceptance ends an Update Complete; and everything else stays outstanding |
| `RemoteMemory.ReadEmptiesBuffer` | LCC/lcc-remote-memory.c:48-81 | a read that is taken on empties the receive buffer, and nothing else that is asked for touches it |
| `RemoteMemory.RequestsAreAccountedFor` | LCC/lcc-remote-memory.c:36-404 | in every run of a client, with any requests and answers in any order: every request taken on has ended with exactly one event, or was cancelled or displaced by an information request, or is the outstanding one |
| `RemoteMemory.OutcomeExactly` | LCC/lcc-remote-memory.c:58-81 | told that all is well if and only if there is room for one frame, really sent if and only if there is room for all; in any case outstanding, and later reads, writes and updates are refused |
| `RemoteMemory.WriteIsLostThoughOk` | LCC/lcc-datagram.c:108-112 | 64 bytes with room for three frames: a rejection of the other node goes out instead of the write, and the caller is told that all is well |
| `Node.NodeContext.Dispatch` | LCC/lcc-datagram.c:192-205 | a datagram goes to the memory server, then to the client, and is rejected if neither takes it |
| `Node.ApplicationHearsExactly` | LCC/lcc-datagram.c:142-251 | exactly what the application is told: of datagrams those that neither server nor client takes, of acceptances and rejections those that are not from the node the client waits for; a datagram that nobody takes is rejected |
| `Node.NodeContext.Incoming` | LCC/lcc-datagram.c:143-253 | one frame from the bus: control frames go elsewhere, messages through reassembly and all handlers |
| `EndToEnd.FramesThenEvents` | LCC/lcc-datagram.c:143-253 | handling frame by frame is the same as reassembling first |
| `EndToEnd.RequestArrives` | LCC/lcc-datagram.c:189-208 | the frames of any request make the server do exactly what the request asks, and reach nothing else in the node |
| `EndToEnd.ReplyComesIn` | LCC/lcc-remote-memory.c:192-327 | the frames of any awaited reply give exactly one event with exactly that reply, one acknowledgement, and an idle client |
| `EndToEnd.RemoteRead` | LCC/lcc-memory-map.c:44-62 | end to end: a read of 1 to 64 bytes delivers the stored bytes if and only if all of them exist, otherwise the right error code; the other node does not change |
| `EndToEnd.RemoteWrite` | LCC/lcc-memory-map.c:64-89 | end to end: a write is accepted if and only if all bytes exist and are writable; then exactly those bytes change, and each side hears of it once |
| `EndToEnd.RemoteWriteThenRead` | LCC/lcc-memory-map.c:44-89 | end to end: a later read delivers what was written |
| `EndToEnd.RemoteCdiRead` | LCC/lcc-memory.c:339-396 | end to end: any read of up to 64 bytes of the CDI delivers that part of the text, padded with zeros |
| `EndToEnd.RemoteCdiInfo` | LCC/lcc-memory.c:316-337 | end to end: the highest address of the CDI space is the length of the text |
| `EndToEnd.RemoteUpdate` | LCC/lcc-memory.c:433-440 | end to end: Update Complete is reported once on each side and is over when accepted |
| `EndToEnd.RemoteInfo` | LCC/lcc-memory.c:466-469 | end to end: the client is told that the space is there if and only if it has a byte, for which addresses exactly, and whether it can be written |
| `EndToEnd.InfoIsAnswered` | LCC/lcc-memory.c:466-469 | all frames with which a node answers a request for information, those that reject it included, and all that its application hears of it; the answer says exactly which bytes there are |
| `EndToEnd.InfoIsRejectedExactly` | LCC/lcc-datagram.c:192-205 | the information is followed by a rejection of the request if and only if the space is not the CDI and the application has registered no function for datagrams |
| `EndToEnd.InfoRejectionHitsNextRequest` | LCC/lcc-datagram.c:200-205 | that rejection ends a request that the client makes as soon as it has the information if and only if it goes to the same node |
| `EndToEnd.AcknowledgementEndsExactly` | LCC/lcc-remote-memory.c:361-389 | the acknowledgement of a reply ends a request of the node that replied if and only if that is a write or an Update Complete to the same node; otherwise nothing changes in it |
| `EndToEnd.RemoteReadAmidTraffic` | LCC/lcc-datagram.c:143-253 | the same as `RemoteRead` with any frames in between that pass, control frames and replies from others than the awaited node included, and with the acknowledgement of the answer |
| `EndToEnd.RemoteWriteAmidTraffic` | LCC/lcc-datagram.c:143-253 | the same as `RemoteWrite` with any such frames in between |
| `Datagram.LoadAndSend` | LCC/lcc-datagram.c:71-140 | what goes out for any datagram and any room on the bus: all frames, or a rejection of the other node while the caller is told that all is well, or nothing |
| `Datagram.ReplyFramesReadBack` | LCC/lcc-datagram.c:252-290 | the frames of an acceptance and of a rejection name their sender, the node they are for, and the flags or the error code |
| `Datagram.TakenForReplyExactly` | LCC/lcc-datagram.c:142-251 | exactly when a datagram frame is taken for a reply as well: for one of two aliases, if its bytes begin with the alias, and it does not start a datagram while another comes in |
| `Datagram.FrameCount` | LCC/lcc-datagram.c:102-106 | a datagram takes one frame for every eight bytes begun, and at least one |
| `Datagram.DatagramContext.AppendBytes` | LCC/lcc-datagram.c:8-20 | data is appended in place, or dropped as a whole if it does not fit |
| `Datagram.DatagramContext.HandleDatagram` | LCC/lcc-datagram.c:143-253 | one frame: rejection of a second sender, reassembly, delivery, and the replies that look like datagrams of other nodes |
| `Datagram.PassesExactly` | LCC/lcc-datagram.c:143-253 | for any frame and any state: the bytes received so far stay and nothing is delivered if and only if the frame is not part of a datagram for this node, or starts one while it is busy, or is no end of one and its bytes do not get in; control frames always pass |
| `Datagram.BusyUnchangedExactly` | LCC/lcc-datagram.c:165-253 | for a busy receiver, exactly which frames leave it as it was |
| `Datagram.GapPasses` | LCC/lcc-datagram.c:165-253 | any number of frames that pass touch no byte that has been received, and each gets exactly its answer |
| `Datagram.ReassemblyInvertsSegmentation` | LCC/lcc-datagram.c:71-210 | any datagram of 0 to 72 bytes, cut into frames with any frames in between that pass, is delivered once and exactly, every one in between gets its answer, and the receiver is as before |
| `Datagram.ArrivesExactlyIf` | LCC/lcc-datagram.c:143-253 | the condition is exact: all datagrams of a length are delivered as sent, once, if and only if all frames in between pass |
| `Datagram.IntruderThatGoesOnWins` | LCC/lcc-datagram.c:183-208 | a rejected sender that goes on sending ends the datagram of the other, which is delivered in its name with its bytes added |
| `RequestQueue.NextKeepsInv` | GUI/lcc/lccconnection.cpp:398-492 | any submit, reply, rejection, timeout or timer, with anything asked for by those who react, keeps the queue consistent, the right timers running included |
| `RequestQueue.FinishedOnceAndSentInOrder` | GUI/lcc/lccconnection.cpp:679-754 | in every run: no request finishes twice, and whenever one is sent all that were made before it have finished |
| `RequestQueue.UpdateCompleteComesLast` | GUI/lcc/lccconnection.h:95-100 | whenever an Update Complete is sent, every write that was asked for before it has ended, across retries and skipped entries |
| `RequestRuns.SentAtMostThreeTimes` | GUI/lcc/lccconnection.cpp:570-677 | in every run in which answers fit the outstanding request, each request is sent at most three times |
| `RequestRuns.TriesAreTransmissions` | GUI/lcc/lccconnection.cpp:570-677 | in such runs the outstanding request has been sent exactly once more than it was given another try |
| `RequestRuns.RejectionFailsExactly` | GUI/lcc/lccconnection.cpp:445-459 | in every run: a rejection from the node that is waited for is the end of the outstanding request if and only if bit 0x2000 of the code is clear or two tries have been used; otherwise it is still first, and any wake-up that finds room sends it again. Any other rejection changes nothing |
| `RequestRuns.TimeoutFailsExactly` | GUI/lcc/lccconnection.cpp:593-653 | the same when no answer comes in time: the end after two more tries, and sent again before that |
| `RequestRuns.ReplyDecides` | GUI/lcc/lccconnection.cpp:398-568 | in every run: the outstanding request ends with its reply, and fails if and only if the reply is a rejection |
| `RequestRuns.SubmittedIsKept` | GUI/lcc/lccconnection.cpp:298-396 | what a new request and a wake-up add to the queue: the request, and what those ask for who react to a request that could not be sent |
| `RequestRuns.ReactionIsKept` | GUI/lcc/lccconnection.cpp:398-677 | what those ask for who react to the end of the outstanding request is queued, all of it and in order |
| `RequestRuns.StepDecreases` | GUI/lcc/lccconnection.cpp:570-754 | with no new requests, every step that has an effect lowers the number of requests, tries and sends that are left |
| `RequestRuns.EveryRunDrains` | GUI/lcc/lccconnection.cpp:570-754 | so only a bounded number of steps can have an effect, and the run is not over before all requests have finished |
| `RequestRuns.TimerAlwaysRuns` | GUI/lcc/lccconnection.cpp:570-575 | in every run, while a request is left: the timer for the answer runs if one is outstanding, otherwise a wake-up is due; and whichever fires has an effect |
| `RequestRuns.SuccessMeansSent` | GUI/lcc/lccconnection.cpp:398-568 | in every run in which answers fit, a request that succeeds has been sent before |
| `RequestRuns.AnswerEndsExactly` | GUI/lcc/lccconnection.cpp:398-568 | in every run: an answer finishes the first request that is not over and has its kind, node and, except for an Update Complete, space; that one was sent if and only if it is the outstanding one, and otherwise the outstanding one has to start over |
| `RequestRuns.LibraryIsAsked` | LCC/lcc-remote-memory.c:36-189 | a wake-up does to the queue exactly what the library does with the request: taken or not, sent whole or not, and what the library waits for then |
| `RequestRuns.LibraryAnswers` | LCC/lcc-remote-memory.c:192-404 | whatever comes in, the library reports it to the queue as one step that gets through, if and only if it is the end of the request, and both wait for the same node then |
| `RequestRuns.StrangeAnswerStartsOver` | GUI/lcc/lccconnection.cpp:398-492 | an answer that fits no request ends the turn of the outstanding one and gives it all its tries back, except for the failure of a read |
| `RequestRuns.SentAnyNumberOfTimes` | GUI/lcc/lccconnection.cpp:570-575 | so with such answers a request can be sent any number of times |
| `RequestRuns.OverBeforeSubmitReturns` | GUI/lcc/lccconnection.cpp:298-314 | a request is over before the call that makes it returns if and only if nothing waits before it and it cannot be sent; if nothing waits and it can, it is sent at once |
| `RequestRuns.EarlierOverDuringSubmit` | GUI/lcc/lccconnection.cpp:679-754 | an earlier request ends while another is made if and only if it is its turn and it cannot be sent; then it has failed |
| `RequestRuns.FramesAreThoseOfTheLibrary` | LCC/lcc-datagram.c:102-106 | the frames that the queue counts for a request are those of its datagram |
| `RequestRuns.OutstandingExactly` | GUI/lcc/lccconnection.cpp:710-754 | exactly when a request counts as outstanding, when it really goes out, and when it is waited for although it was never sent |
| `RequestRuns.FailedSendLeavesLibraryWaiting` | GUI/lcc/lccconnection.cpp:716-753 | a send that fails on the bus leaves the library waiting, and no timeout ends that |
| `RequestRuns.WaitingLibraryFailsEverything` | GUI/lcc/lccconnection.cpp:710-753 | from then on every read, write and update fails without being sent |
| `Connection.LccConnection.InflightIsUnfinished` | GUI/lcc/lccconnection.h:162-167 | each in-flight list is the queue of its kind without what has finished, in order: nothing is lost |
| `Connection.LccConnection.ReadSingleMemoryBlock` | GUI/lcc/lccconnection.cpp:298-314 | a read with arguments in range is queued, and sent if nothing is outstanding |
| `Connection.LccConnection.WriteSingleMemoryBlock` | GUI/lcc/lccconnection.cpp:316-332 | the same for a write of 1 to 64 bytes |
| `Connection.LccConnection.SendUpdateComplete` | GUI/lcc/lccconnection.cpp:334-349 | the same for Update Complete |
| `Connection.LccConnection.QueryAddressSpaceInformation` | GUI/lcc/lccconnection.cpp:380-396 | the same for an information request |
| `Connection.LccConnection.FinishThenRemove` | GUI/lcc/lccconnection.cpp:398-443 | information and data: the first match in the list is the first unfinished match of all requests, even though the list is updated last |
| `Connection.LccConnection.RemoveThenFinish` | GUI/lcc/lccconnection.cpp:527-568 | the same for writes and updates, where the list is updated first |
| `Connection.LccConnection.RemoteMemoryReadRejected` | GUI/lcc/lccconnection.cpp:461-492 | the same for a rejected read, which does nothing if there is no match |
| `Connection.LccConnection.RemoteMemoryRequestFailed` | GUI/lcc/lccconnection.cpp:445-459 | a rejected datagram is retried or fails the request at the front |
| `Connection.LccConnection.MemoryRequestTimedOut` | GUI/lcc/lccconnection.cpp:593-632 | a timeout cancels, and retries or fails the request at the front |
| `Connection.LccConnection.WakeUp` | GUI/lcc/lccconnection.cpp:570-575 | a wake-up that was due goes to the next request |
| `Connection.LccConnection.FailCurrentRequest` | GUI/lcc/lccconnection.cpp:655-677 | the front leaves the queue and its list before anyone can react |
| `Connection.LccConnection.RequestNextMemoryBlock` | GUI/lcc/lccconnection.cpp:679-754 | finished entries are skipped; the next request is sent and its timer started, or it fails |
| `SegmentMirror.EveryStepKeepsReadingOk` | GUI/lcc/segmentmemory.cpp:44-183 | for any replies, also late and foreign ones: while reading, there are as many bytes as the offset says, and not yet all |
| `SegmentMirror.StartsExactly` | GUI/lcc/segmentmemory.cpp:44-71 | exactly when a reading starts, with an empty mirror and a request for information, when nothing happens and when it fails |
| `SegmentMirror.EmptyExactly` | GUI/lcc/segmentmemory.cpp:107-122 | a space is taken to be empty if and only if it takes up all addresses, or is not there and ends at 0; otherwise its length is what the addresses say |
| `SegmentMirror.InvalidExactly` | GUI/lcc/segmentmemory.cpp:98-105 | a space becomes invalid by exactly one thing: that the node names a highest address below the lowest |
| `SegmentMirror.InvalidForGood` | GUI/lcc/segmentmemory.cpp:44-183 | after that no sequence of attempts, information and blocks changes its mirror |
| `SegmentMirror.StillReadingExactly` | GUI/lcc/segmentmemory.cpp:127-183 | for any replies: still reading if and only if none that concerns the space was an error or empty, no request was refused, and bytes are left; replies for other spaces do nothing |
| `SegmentMirror.ReadingEnds` | GUI/lcc/segmentmemory.cpp:127-183 | whatever the replies say, and whichever requests are refused, reading ends after at most as many replies that concern the space as there are bytes |
| `SegmentMirror.WholeSegmentIsRead` | GUI/lcc/segmentmemory.cpp:107-183 | if every reply is a non-empty front part of the block that the mirror has asked for, the mirror ends up with exactly the bytes of the node |
| `SegmentMirror.RequestsCoverTheSpace` | GUI/lcc/segmentmemory.cpp:158-183 | if every reply is as long as what was asked for, the requests of a reading are consecutive blocks of 64 bytes with a shorter last one, and reach every address of the space and no other |
| `SegmentMirror.EndIsToldOnce` | GUI/lcc/segmentmemory.cpp:125-183 | whatever the replies are, a reading ends with exactly one signal: that the memory is ready if it is complete, and otherwise that it failed |
| `SegmentMirror.BlockIsTold` | GUI/lcc/segmentmemory.cpp:143-163 | how much there is after each block is told, and at the end that all of the mirror has changed |
| `SegmentMirror.WriteKeepsAgreement` | GUI/lcc/segmentmemory.cpp:195-208 | an accepted block that does not straddle the start keeps mirror and node in agreement |
| `SegmentMirror.StraddlingBlockBreaksAgreement` | GUI/lcc/segmentmemory.cpp:196-198 | for every block that does straddle it there are bytes that break the agreement |
| `SegmentMirror.ReadRestoresAgreement` | GUI/lcc/segmentmemory.cpp:244-247 | one block that was read agrees with the node afterwards, and nothing else changes |
| `SegmentMirror.BlocksCover` | GUI/lcc/segmentmemory.cpp:261-263 | the blocks of a range are consecutive, have 1 to 64 bytes, and write together what the range would |
| `SegmentMirror.WriteRangeKeepsAgreement` | GUI/lcc/segmentmemory.cpp:254-299 | for any pattern of accepted and rejected blocks the mirror agrees with the node afterwards |
| `SegmentMirror.OneSignalExactlyIf` | GUI/lcc/segmentmemory.cpp:275-295 | for any failures while it starts, cut short or not, and any results after that: exactly when there is no signal, one or two; success if and only if it was not cut short, all blocks were heard and none failed |
| `SegmentMirror.SegmentMemory.ReadAllMemory` | GUI/lcc/segmentmemory.cpp:44-71 | starting, or why not |
| `SegmentMirror.SegmentMemory.AddressSpaceFinished` | GUI/lcc/segmentmemory.cpp:73-125 | what the information about a space starts |
| `SegmentMirror.SegmentMemory.AddressSpaceRead` | GUI/lcc/segmentmemory.cpp:127-158 | what a block changes; an empty one ends the reading |
| `SegmentMirror.SegmentMemory.UpdateData` | GUI/lcc/segmentmemory.cpp:195-208 | the loop replaces exactly the bytes that lie inside the mirror |
| `SegmentMirror.SegmentMemory.WriteRange` | GUI/lcc/segmentmemory.cpp:254-299 | the loop makes requests for the blocks in order up to the first that is not taken, and counts them, with any blocks that fail meanwhile |
| `SegmentMirror.SegmentMemory.ReadRange` | GUI/lcc/segmentmemory.cpp:210-252 | the same loop for reading, with the addresses and lengths that are asked for |
| `SegmentMirror.ReadRangeRestoresAgreement` | GUI/lcc/segmentmemory.cpp:210-252 | reading a range block by block puts the mirror in line with the node there, and changes nothing elsewhere |
| `SegmentMirror.SegmentMemory.BlockFinished` | GUI/lcc/segmentmemory.cpp:276-295 | what one block that comes back does to the mirror and to the shared counters |
| `CdiText.PiecesAreTheText` | LCC/lcc-cdi-control.c:39-53 | the pieces that go to the callback, put together, are the text |
| `CdiText.Generator.AppendChar` | LCC/lcc-cdi-control.c:39-47 | a character into the static buffer; every 64th sends the buffer to the callback |
| `CdiText.XmlLength` | LCC/lcc-cdi-control.c:234-246 | the length of the text |
| `CdiText.ToXmlAtOffset` | LCC/lcc-cdi-control.c:248-271 | success if and only if the offset is a multiple of 64 inside the text, and the zero-padded part of the text from there |
| `CdiText.CdiBytesAreTheText` | LCC/lcc-memory.c:373-388 | two pieces make any read of up to 64 bytes from any address the text itself |
| `CdiText.CdiBytesExactly` | LCC/lcc-memory.c:382-386 | a read gives the text padded with zeros if and only if it does not reach past the last address, or there is no text |
| `Download.CdiIsDownloaded` | GUI/lcc/lccnode.cpp:65-76 | over the bus: size, blocks and the cut at the first zero byte give back exactly the text of the CDI |
| `Download.SegmentIsDownloaded` | GUI/lcc/segmentmemory.cpp:44-183 | over the bus, with what the mirror asks for as the requests: reading a whole segment gives exactly its bytes and changes nothing in the other node |
| `Download.StoringKeepsAgreement` | GUI/lcc/segmentmemory.cpp:254-299 | over the bus: after writing any blocks, accepted or not, mirror and node agree |
| `Download.CdiReady` | GUI/lcc/lccnode.cpp:65-76 | the text handed to the XML reader is what comes before the first zero byte |
| `DccDecoder.Decoder.ProcessWholeBit` | DCC/dcc-decoder.c:146-221 | one bit, in every state of the framing, as a step of a machine without buffers |
| `DccDecoder.Decoder.PolarityChanged` | DCC/dcc-decoder.c:223-253 | one half-bit: pairing, loss and recovery of phase |
| `DccDecoder.HalfBitWindows` | DCC/dcc-decoder.c:64-74 | half of a one lasts 52 to 64 microseconds, or 45 to 71 with the wider limits, and half of a zero 90 to 10000 |
| `DccDecoder.WholeBitWindows` | DCC/dcc-decoder.c:53-63 | a one lasts 104 to 128 microseconds, or 90 to 142 with the wider limits, and a zero at least 180 |
| `DccDecoder.HalvesMakeTheWhole` | DCC/dcc-decoder.c:53-91 | two good halves of the same value make a whole bit that is good, and the same one |
| `DccDecoder.Decoder.PumpPacket` | DCC/dcc-decoder.c:277-307 | the last packet is given out once, if its checksum is right |
| `DccDecoder.IsPacketValid` | DCC/dcc-decoder.c:93-106 | the loop accepts a packet if and only if the XOR of all its bytes is 0 |
| `DccDecoder.XorAppend` | DCC/dcc-decoder.c:94-108 | the checksum of bytes is that of their parts, and of one byte the byte itself |
| `DccDecoder.ChecksumCatchesOneByte` | DCC/dcc-decoder.c:93-106 | no valid packet stays valid if one byte is changed |
| `DccDecoder.BodyIsQuiet` | DCC/dcc-decoder.c:156-178 | no packet body looks like a preamble anywhere: it ends with at most nine ones counted |
| `DccDecoder.StreamGivesExpected` | DCC/dcc-decoder.c:146-221 | exactly which packets come out of a stream of any preambles and packets |
| `DccDecoder.JoinAtAnyBit` | DCC/dcc-decoder.c:146-221 | joining at any bit: every later packet comes out byte for byte, the first one exactly if enough preamble was left, and nothing is invented |
| `DccDecoder.InPhase` | DCC/dcc-decoder.c:223-253 | a decoder in phase stays so and passes on exactly the bits that were sent |
| `DccDecoder.OutOfPhase` | DCC/dcc-decoder.c:240-249 | a decoder in any state that is half a bit off gets the bits up to the first change of value, then one invalid bit, and then it is in phase |
| `DccDecoder.NoSpuriousPackets` | DCC/dcc-decoder.c:146-253 | from any half-bit start, with or without the expanded window: all packets from some packet on, at most two missed, none invented |
| `DccDecoder.AtMostOneInvented` | DCC/dcc-decoder.c:146-253 | in any state whatever, with a half-bit in memory or not, from any half-bit of a standard stream on, in phase or not: at most one packet that was not sent, at most six missed, then all |
| `DccDecoder.PumpingExactly` | DCC/dcc-decoder.c:223-307 | for any half-bits and any calls to pump: exactly the packets with a right checksum are given out or wait, if and only if none of them still waits when the next packet comes |
| `DccDecoder.GoodPacketsAreDelivered` | DCC/dcc-decoder.c:146-307 | a decoder pumped after every half-bit, from any half-bit start, gives out exactly the packets of the stream with a right checksum, from some packet on |
| `DccDecoder.GivenExactlyIf` | DCC/dcc-decoder.c:192-196 | a packet comes out if and only if the ones counted in 8 bits are ten or more and it has at most five bytes |
| `CdiLayout.CdiVariantSize` | GUI/lcc/cdi/cdivariant.cpp:30-44 | the size of a value or a replicated group |
| `CdiLayout.CdiElementsSize` | GUI/lcc/cdi/cdivariant.cpp:46-52 | the loop over elements |
| `CdiLayout.LayoutElements` | GUI/lcc/cdi/cdilayout.cpp:5-37 | the loop with its running address, as a function of the elements |
| `CdiLayout.CdiLayoutOf` | GUI/lcc/cdi/cdilayout.cpp:39-54 | one group per segment, from its origin |
| `CdiLayout.UnrollSize` | GUI/lcc/cdi/cdivariant.cpp:30-52 | the computed size is that of the description with all replication written out |
| `CdiLayout.LayoutIsFlatReading` | GUI/lcc/cdi/cdilayout.cpp:5-37 | the fields of the layout are those of the written-out description, each at its address there and equally often |
| `CdiLayout.LayoutIsSound` | GUI/lcc/cdi/cdilayout.cpp:5-37 | for any nesting and replication every field lies inside its segment and no two share a byte |
| `CdiLayout.WritesDoNotInterfere` | GUI/lcc/cdi/cdilayout.cpp:5-37 | so writing one field changes no other |
| `CdiLayout.NeighboursAreApart` | GUI/lcc/cdi/cdivariant.cpp:30-51 | between any neighbours: an element starts after the one before by its size, which is 1 byte or the given size for an int, the given size for a string, 8 for an event ID and a multiple of the elements for a group, and by what is skipped |
| `CdiLayout.GroupIsShownExactly` | GUI/lcc/cdi/cdilayout.cpp:19-36 | a group is shown once for every repetition, unless it is a bare one that only pads storage |
| `CdiValues.EncodeField` | GUI/lcc/cdi/cdieditorwidget.cpp:476-537 | the bytes that are stored for a value: a number big end first, a text cut short and padded with zero bytes, an event ID as eight bytes |
| `CdiValues.FieldValue` | GUI/lcc/cdi/cdieditorwidget.cpp:415-474 | the value that is shown for stored bytes |
| `CdiValues.StoredFillsField` | GUI/lcc/cdi/cdivariant.cpp:30-44 | the bytes of a value are as many as the layout has for it |
| `CdiValues.StoredIsShownExactly` | GUI/lcc/cdi/cdieditorwidget.cpp:415-537 | a value can be stored and is shown again as it was if and only if the number has few enough bytes, the text leaves room for its zero byte and has no other, or the event ID has eight bytes |
| `CdiValues.SpinBoxReadBackExactly` | GUI/lcc/cdi/cdieditorwidget.cpp:455-463 | a number in a spin box comes back if and only if it is not negative and has few enough bytes |
| `CdiValues.StoredAgainExactly` | GUI/lcc/cdi/cdieditorwidget.cpp:388-398 | storing a text as it is shown gives the same bytes if and only if it is padded with zero bytes |
| `CdiValues.StoringOneValue` | GUI/lcc/cdi/cdieditorwidget.cpp:476-537 | storing a value in a field of any layout fills exactly the field, is shown again there, and leaves every other field as it was |
| `CdiValues.LayoutReadsImage` | GUI/lcc/cdi/cdilayout.cpp:5-54 | if the memory has the values of a description one after another, with its gaps and its groups as often as they are replicated, every field of the layout has its value |
| `CdiLayout.GroupIsContained` | GUI/lcc/cdi/cdilayout.cpp:28-35 | every field lies inside its group, and every group is that of an element of its parent and has the bytes of its own elements inside those of its parent, at every depth |
| `CdiLayout.SizesAddUp` | GUI/lcc/cdi/cdivariant.cpp:46-52 | field sizes and skipped bytes, counted with replication, add up to the size |
| `CdiLayout.ReplicaIsShiftedFirst` | GUI/lcc/cdi/cdilayout.cpp:28-35 | replica k is the first one moved on by k - 1 repetitions, at every depth |
| `GridConnect.CanFrameToGridConnect` | LCC/lcc-gridconnect.c:65-87 | all eight bytes printed and cut, as the line of the frame |
| `GridConnect.LineShape` | LCC/lcc-gridconnect.c:65-87 | a line begins with a colon and the X of an extended frame, ends with the only semicolon in it, and has no NUL |
| `GridConnect.GridConnectToCanFrame` | LCC/lcc-gridconnect.c:89-142 | the walk over any string in the buffer |
| `GridConnect.LineReadBack` | LCC/lcc-gridconnect.c:65-142 | every frame comes back from its line, whatever follows it in the buffer |
| `GridConnect.StrtolForms` | LCC/lcc-gridconnect.c:89-142 | how numbers may be written: after spaces, with a sign, with 0x, and in letters of either case |
| `GridConnect.ChunksDoNotMatter` | LCC/lcc-gridconnect.c:34-63 | data in any pieces is as good as in one |
| `GridConnect.Receiver.IncomingData` | LCC/lcc-gridconnect.c:34-63 | the loop, with its flag that is set anew for every piece |
| `GridConnect.EveryFrameGetsThrough` | LCC/lcc-gridconnect.c:34-142 | any frames with any text without colons in between, in any pieces, come out completely and in order |
| `GridConnect.LongLineIsDropped` | LCC/lcc-gridconnect.c:34-63 | a line without an end is dropped when it fills the 128 bytes of the buffer, and a new one is waited for |
| `NodeInfo.SendInfo` | LCC/lcc-addressed.c:63-156 | the block is built in place and cut into first, middle and last frames, up to the first that the bus does not take; the last may be empty |
| `NodeInfo.FramesAreAddressed` | LCC/lcc-addressed.c:137-150 | every frame of a reply names its sender and, in its first two bytes, the node it is for and whether it is the first, the last or one in between |
| `NodeInfo.NodeRecord.HandleReply` | LCC/lcc-network-info.c:162-258 | one frame: collecting, and after the last one the state machine over the strings |
| `NodeInfo.ParsedInOrder` | LCC/lcc-network-info.c:231-249 | the strings that are there are taken in order and cut to their room, the others stay what they were |
| `NodeInfo.OverrunExactly` | LCC/lcc-network-info.c:185-211 | exactly when a reply is too long for the buffer or has too many strings |
| `NodeInfo.BlockReadBack` | LCC/lcc-network-info.c:202-248 | the six strings of any block are found again, whatever is behind it in the buffer |
| `NodeInfo.InfoArrives` | LCC/lcc-addressed.c:63-156 | any six strings of the allowed lengths arrive as sent and leave the buffer ready |
| `NodeInfo.BlockedForGood` | LCC/lcc-network-info.c:197-210 | after a reply with another first byte, whatever comes, nothing is read from that node again |
| `NodeInfo.ReadAgainExactlyIf` | LCC/lcc-network-info.c:162-258 | some frames are still read if and only if the buffer is empty, or begins with 4 and does not hold too many strings |
| `NodeInfo.ReplyAfterIncomplete` | LCC/lcc-network-info.c:162-258 | a complete reply after an incomplete one is read as one with it, and the reply after that arrives as sent |
| `CabBus.Context.NextPingAddress` | CabBusCommunications/CabBus.c:98-131 | the search loop ends, with the next address that is due |
| `CabBus.Context.PingStep1` | CabBusCommunications/CabBus.c:133-147 | the address is polled and sent |
| `CabBus.Context.PingStep2` | CabBusCommunications/CabBus.c:149-192 | a complete answer marks the cab as heard |
| `CabBus.Context.IncomingByte` | CabBusCommunications/CabBus.c:194-205 | the bytes of an answer |
| `CabBus.RoundExactly` | CabBusCommunications/CabBus.c:98-131 | between two polls of address 0 the addresses strictly increase and are exactly those due |
| `CabBus.TriedOnceInFourRounds` | CabBusCommunications/CabBus.c:116-123 | a cab silent for more than 30 rounds is polled in exactly one of any four |
| `CabBus.AfterTheLastAnswer` | CabBusCommunications/CabBus.c:116-127 | after its last answer a cab is polled in 29 more rounds, not in the 30th, then in every fourth |
| `CanId.MessageIdFields` | LCC/lcc-common-internal.c:8-19 | every field of a message identifier can be read back |
| `CanId.ControlIdFields` | LCC/lcc-common-internal.c:8-19 | every field of a control identifier can be read back |

## Left out

- Widgets, dialogs, network discovery, sockets, serial ports, settings and logging: input and output.
- Timers as durations: the wait before a claim is the condition that all probes and answers have been delivered, and
  the timers of the request queue can fire at any time while they run.
- LocoNet framing, and the caches of turnouts and sensors: the code does not do what would be worth stating.
- Removing events from the event list, and producing and consuming events.
- The XML of a CDI: the generator is modelled for the text as a list of strings, with neither the tags nor the loop
  over map relations (LCC/lcc-cdi-control.c:112-126), and reading XML starts from the element tree.
- CDIs that are plain memory (LCC/lcc-memory.c:388), read without a check of the length.
- Firmware upgrades, streams, reboot and factory reset beyond the fact that they are reported.
- Nodes without a memory map: `MemoryServer` is for a node with a map and a generated CDI.
- What happens after an access outside of a segment, a line that is too long for the GridConnect buffer, or a Simple
  Node Information reply that is too long for its buffer or has more than six strings: C does not define it, so the
  model marks it and stops.
- Values of a CDI as texts in Unicode, the digits of an event ID, combo boxes, the ranges of spin boxes and the list of
  changes that are not written yet: `CdiValues` is about bytes and numbers.
- CdiValues.EncodeField: an int of more than eight bytes, which the code would shift by more than 64 bits, is left out.
- Labels of CDI groups, which do not affect addresses.
- Replies to Simple Node Information other than the six strings, and the protocol support bits.
- Train control, accessory and clock events, the speed matcher, and the code for microcontrollers.
- Cab displays and keys: `CabBus` models which cab is polled and when it counts as heard.
- Connection.LccConnection.SubmitRequest: what those who react to a request ask for is a parameter, and what they do
  in reaction to a request that fails inside of that is limited to queueing, as the code allows no more.
- RequestQueue.Matches: the data and the addresses of requests and replies are not part of the queue, which does not
  look at them.
- Node.NodeContext.Incoming: callbacks are reported in order after the frame is handled, so a request that is made
  inside a callback is modelled as made right after it; what the application sends in one, the check for a collision
  of aliases that comes first and the handlers of other messages are not modelled.
- AliasNegotiation.Context.ClaimAlias: the lists of produced and consumed events after a claim (LCC/lcc.c:385-390) are
  left out, as they say nothing about aliases.
- MemoryServer.MemoryContext.TryHandleDatagram: firmware, freeze and unfreeze, plain-memory CDI, and nodes without a
  memory map or without memory functions are left out.
- MemoryServer.MemoryContext.ReadOrWrite: firmware writes, and reads and writes by functions of the application in
  place of a memory map, are left out.
- Connection.LccConnection.RequestNextMemoryBlock: a reply object that is deleted while it is still queued, which the
  code skips, is not modelled.
- DccDecoder.Decoder.PumpPacket: the packet parser that may be chained behind the callback is left out.
- CabBus.Context.PingStep2: the buttons that are reported and the screens that are redrawn are left out.
