# Verified models of the network, storage and game core

A Dafny model of the parts of the repository where correctness is hardest to see from one
function, and proofs of what those parts are for. `dafny verify dfyconfig.toml` checks all of it.

The centre is the UDP message transport. A message is cut into fragments, each fragment becomes a
datagram with a packed 47-byte header and two CRCs, and the receiver puts messages together again
in spite of loss, duplication, reordering, damage and interleaving. Around that sit the handshake,
the server's sessions and its event log. The model goes all the way from one `SendInternal` call to
the server's event log, through the bytes of the datagrams.

| file | what it holds |
|---|---|
| `ShiftRegister.dfy` | feeding a register with bits, for any register |
| `Crc32.dfy` | the bit-serial CRC-32 of section 8 of RFC 1952, and which changes it must notice |
| `CrcTables.dfy` | the constant table of the UDP transport, entry by entry, and the table step |
| `UdpCommon.dfy` | the two CRC routines: constant table (`UdpCommon`), table built on first use (`GameCrc`) |
| `LittleEndian.dfy`, `Option.dfy` | packed little-endian integers; a value that may be missing |
| `CrcCheck.dfy` | the residue and the check value of CRC-32 |
| `UdpPacket.dfy` | the datagram format |
| `WireFormat.dfy` | the same, byte by byte, with what a datagram or game message is refused for |
| `UdpIntegrity.dfy`, `UdpEdges.dfy` | which short damage the two CRCs always notice; exactly which damage is accepted again |
| `GameMessages.dfy` | the envelope of the game protocol |
| `Coverage.dfy` | whether fragments tile a message, whatever an unstable sort does with ties |
| `Reassembly.dfy` | the reassembly buffer as an object, and each call as a function of the state |
| `ReassemblyRuns.dfy` | where the bytes of a completed message came from, over any run |
| `ReassemblyLaws.dfy` | non-interference, conservation, the queue, expiry under a wrapping clock |
| `ReassemblyAnswers.dfy` | every answer, entry and delivery as decided by the arrivals; the size limit |
| `UdpSend.dfy`, `EndToEnd.dfy` | cutting a message, and its way into a receiver's completed queue |
| `Handshake.dfy` | clients, server and network as one system; the client as an object |
| `HandshakeClock.dfy` | what ends a session or closes a socket, and how long a client retries, by true time |
| `ServerLog.dfy`, `ServerObjects.dfy` | the server's steps and log; server and sessions as objects |
| `ServerDelivery.dfy` | from one `SendInternal` call to the server's event log |
| `ServerClock.dfy` | when the server ends a session, by true time |
| `ServerEffects.dfy` | what ending, closing, cleaning and ticking come to over whole runs |
| `ServerHandshake.dfy` | the full server refines the server of the handshake system |
| `MySqlPool.dfy` | the job queue, connection pool and callbacks under any interleaving |
| `MySqlOrder.dfy` | the orders they keep, who gives up, and what no longer happens after a stop |
| `SendQueue.dfy` | the WebSocket send queue and its single writer |
| `Snake.dfy` | the body that follows its head, in the plane over the reals |
| `Base32.dfy` | the decoder whose 32-bit accumulator is never masked |

Objects that the source updates in place are classes here. Each of their methods is proved equal to
a step function of the state before it, and the theorems about whole runs are about those step
functions. Concurrent parts are step systems: what a thread does under one lock, or a handler from
start to end, is one step, and a run is any sequence of steps.

What the code does where that is surprising, and how the proofs deal with it:

* A session id is a 64-bit counter that comes round. `Handshake.IssuedIdsDistinct` and
  `ServerLog.LogsWellFormedIff` say exactly until when the sessions stay apart.
* The fragment count is kept in 16 bits. `UdpSend.PiecesTileIff` says exactly which messages are cut
  whole.
* Ranges are sorted by offset alone. An empty fragment inside a message makes the verdict depend on
  the order in which the sort leaves ties; `Coverage.AcceptedInEveryOrder` says exactly when it does
  not.
* Nobody looks at the payload CRC of an empty fragment, so rebuilding such a datagram may give other
  bytes; `UdpPacket.BuildOfParsed` says exactly when.
* The header CRC is stored in the middle of the bytes it covers, so damage across its edge can make up
  for itself. `UdpEdges.BurstAcceptedIff` says for every burst of at most 32 bits whether it does; that
  depends on the flipped bits and on whether there is payload, and on nothing else. Every accepted
  datagram has such a burst (`UdpEdges.LowerEdgePasses`).
* A replay of all fragments delivers the message again. `EndToEnd.DeliveredEachTime` says exactly how
  often, and `ReassemblyLaws.Conservation` bounds it by counting.
* A session's silence is a 32-bit difference. A cleanup whose clock reading is older than the session's
  last datagram sees an age just below 2^32, `ServerLog.ExpiryVerdict`; when readings and datagrams
  come in order, `ServerClock.SessionExpiryIsExact` shows that the verdict is right.
* After a failed write the flag of a send queue stays up. `SendQueue.FailureIsFinal` shows that nothing
  is ever written again, and the WebSocket client does not clear the flag when it reconnects.
* Gaining experience may carry the snake's 32-bit counter over the top and leave it too short;
  `Snake.WholeIff` says exactly when.
* `StopWorkers` raises its flag without the pool mutex, so one thread may fall asleep after everybody
  was woken. `MySqlPool.StopCanMissOne` is such a run, `MySqlPool.LateSleeperIff` says exactly which
  thread it is, and `MySqlPool.StopMissesAtMostOne` shows that there is at most one and that the next
  connection returned wakes it.

## Model

| member | source | states |
|---|---|---|
| CrcSpec.BurstDetected | udp/src/udp_common.cpp:40-52 | two byte strings that differ only within 32 consecutive bits, lowest bit of each byte first, have different CRCs |
| CrcSpec.ShiftInjective | legacy_game/interface/game_messages.hpp:212-218 | different registers stay different under the bit step |
| CrcSpec.ShiftLinear | legacy_game/interface/game_messages.hpp:212-218 | the bit step of a sum is the sum of the bit steps |
| CrcSpec.FeedIsShift | legacy_game/interface/game_messages.hpp:212-218 | feeding n data bits one by one is mixing the word in first and shifting n times |
| CrcSpec.ShortRunsDiffer | udp/src/udp_common.cpp:46-49 | different bit strings of one length up to 32 take a register to different registers |
| CrcSpec.BitsDetermineData | udp/src/udp_common.cpp:46-49 | byte strings with the same bits are the same |
| CrcSpec.RegisterSnoc | udp/src/udp_common.cpp:46-49 | one more byte updates the bit-serial register by eight shifts |
| CrcTables.ConstantTableCorrect | udp/src/udp_common.cpp:5-38 | each of the 256 constants is eight bit steps of its index |
| CrcTables.ByteStepSplit | udp/src/udp_common.cpp:48-48 | eight shifts of a register are the table entry of its low byte mixed with its high bytes |
| CrcTables.TableStepIsUpdate | udp/src/udp_common.cpp:48-48 | one lookup in the constant table does what eight bit steps do |
| CrcCheck.CrcOfNothing | udp/src/udp_common.cpp:40-52 | the CRC of nothing is 0 |
| CrcCheck.Residue | udp/src/udp_common.cpp:40-52 | every byte string followed by its own CRC, lowest byte first, has the CRC 0x2144DF1C |
| CrcCheck.CheckValue | udp/src/udp_common.cpp:40-52 | the CRC of the digits 1 to 9 is 0xCBF43926 |
| UdpCommon.Crc32 | udp/src/udp_common.cpp:40-52 | the constant-table loop computes, for every byte string, the bit-serial CRC that CrcCheck pins down |
| GameCrc.CrcTable.FillTable | legacy_game/interface/game_messages.hpp:204-222 | every entry of the computed table is eight bit steps of its index, and the table is marked filled |
| GameCrc.CrcTable.Crc32 | legacy_game/interface/game_messages.hpp:202-230 | the computed-table routine returns the same bit-serial CRC, on the first call and on later ones, so it agrees with the other routine on every input |
| GameCrc.CrcTable.Digest | legacy_game/interface/game_messages.hpp:224-229 | with the table filled, the loop computes the bit-serial CRC |
| GameCrc.EightShifts | legacy_game/interface/game_messages.hpp:211-219 | the inner loop is eight bit steps |
| LittleEndian.DecodeEncode | udp/src/udp_packet.cpp:50-50 | a number that fits its field is read back as written |
| LittleEndian.EncodeDecode | udp/src/udp_packet.cpp:28-28 | a field's bytes are what writing its number gives |
| LittleEndian.DigitAt | udp/src/udp_packet.cpp:28-28 | byte i of a written field is the digit of weight 256^i, so the lowest byte comes first |
| LittleEndian.DecodeIsWeighted | udp/src/udp_packet.cpp:50-50 | a field reads as the sum of its bytes times 256^i |
| UdpPacket.ReadHeaderBytes | udp/src/udp_packet.cpp:28-50 | the header read from a header's bytes is that header, all 13 fields |
| UdpPacket.HeaderBytesRead | udp/src/udp_packet.cpp:28-50 | the bytes of the header read from a datagram are its first 47 bytes |
| UdpPacket.BuildPacket | udp/src/udp_packet.cpp:14-38 | the datagram is the sealed header followed by the payload: size and payload CRC set, header CRC over the header with that field zero |
| UdpPacket.ParsePacket | udp/src/udp_packet.cpp:40-104 | accepts or names the first test that fails, in the source's order, and returns header and payload |
| WireFormat.PacketInPlace | udp/src/udp_packet.cpp:14-38 | in every built datagram the ten numbers stand at offsets 0, 4, 6, 7, 15, 19, 21, 23, 27 and 31 and the three CRCs at 35, 39 and 43, lowest byte first, each CRC over the bytes it covers, with the payload from 47 on |
| WireFormat.ReadInPlace | udp/src/udp_packet.cpp:40-50 | the header read from any datagram is the one its bytes spell at those places |
| WireFormat.Kinds | udp/src/udp_server.cpp:243-253 | the first seven bytes of a hello, a welcome and a fragment, and the place of the session id in a welcome |
| WireFormat.ReasonIsFault | udp/src/udp_packet.cpp:40-104 | the parser names the first thing wrong with the bytes, and accepts exactly when nothing is |
| WireFormat.HandedOver | udp/src/udp_packet.cpp:40-104 | header and payload are handed over as far as the bytes made sense |
| WireFormat.CutShort | udp/src/udp_packet.cpp:44-64 | a built datagram cut anywhere is refused as too small or of the wrong size |
| WireFormat.OtherVersion | udp/src/udp_packet.cpp:52-56 | another magic or version is refused for that, whatever else is sent |
| UdpPacket.ParseOfBuilt | udp/src/udp_packet.cpp:14-104 | a built datagram is accepted if and only if its magic and version are right and its fragment fields are in bounds, and then gives back the caller's fields and the payload |
| UdpPacket.BuildOfParsed | udp/src/udp_packet.cpp:14-104 | rebuilding what an accepted datagram was parsed into gives its bytes if and only if it carries payload or its unused payload CRC is zero |
| UdpIntegrity.CorruptionRejected | udp/src/udp_packet.cpp:58-84 | an accepted datagram hit by a burst of at most 32 bits in the bytes it uses is rejected, unless the burst crosses into the header CRC from below, or out of it in a datagram without payload; UdpEdges.BurstAcceptedIff settles those two |
| UdpEdges.BurstAcceptedIff | udp/src/udp_packet.cpp:58-84 | an accepted datagram hit by any burst of at most 32 bits in the bytes it uses is accepted again if and only if the burst crosses an edge of the stored header CRC (the upper one only without payload) and changes the stored value by what its other flipped bits do to a register |
| UdpEdges.LowerEdgePasses | udp/src/udp_packet.cpp:68-74 | such a burst exists for every accepted datagram: 31 consecutive bits across the lower edge |
| UdpEdges.UpperEdgePasses | udp/src/udp_packet.cpp:76-84 | and across the upper edge for every accepted datagram without payload |
| UdpEdges.DifferenceSpreads | udp/src/udp_common.cpp:46-49 | what flipping given bits does to the register depends only on the flipped bits, not on the data |
| GameMessages.BuildMessage | legacy_game/interface/game_messages.hpp:256-280 | the message is the header with version, length and CRC, followed by the payload |
| GameMessages.ParseHeaderDetailed | legacy_game/interface/game_messages.hpp:282-320 | names the first test that fails, and returns the header unless the data is too short |
| GameMessages.ParseOfBuilt | legacy_game/interface/game_messages.hpp:256-320 | every built message parses, to the header and payload it was built from |
| WireFormat.MessageInPlace | legacy_game/interface/game_messages.hpp:256-280 | in every built message the numbers stand at offsets 0, 2, 4, 8 and 12 and the CRC at 16, lowest byte first, with the payload from 20 on |
| WireFormat.MessageErrorIsFault | legacy_game/interface/game_messages.hpp:282-320 | the parser answers the first thing wrong with the bytes |
| WireFormat.MessageCutOrGrown | legacy_game/interface/game_messages.hpp:282-303 | a built message that was cut or grew is refused as too small or of the wrong size |
| GameMessages.OkMeansBuilt | legacy_game/interface/game_messages.hpp:256-320 | the parser answers Ok on exactly the byte strings that BuildMessage can produce |
| Coverage.ValidateCoverage | udp/src/udp_reassembly.cpp:13-66 | true if and only if all fragments are received and, as the sort leaves them, form a chain from 0 to the total |
| Coverage.AcceptedIsExact | udp/src/udp_reassembly.cpp:13-66 | whatever the sort does with ties, accepted fragments are pairwise disjoint with union exactly [0, total) |
| Coverage.ExactIsAccepted | udp/src/udp_reassembly.cpp:35-65 | fragments that tile the message and carry bytes (or sit empty at its end) are accepted whatever the sort does |
| Coverage.AcceptedInEveryOrder | udp/src/udp_reassembly.cpp:35-65 | fragments that tile the message are accepted in every order the sort may leave if and only if no empty one lies inside |
| Coverage.StrayEmptyCanBeRejected | udp/src/udp_reassembly.cpp:35-65 | an empty fragment inside the message can be sorted so that the message is rejected |
| Coverage.InsertionSorts | udp/src/udp_reassembly.cpp:35-38 | one sort that does what is asked of the library's: insertion by offset, ties left in place |
| Reassembly.ReassemblyBuffer.AddFragment | udp/src/udp_reassembly.cpp:68-161 | new state and outcome are those of the step function; the invariant is kept |
| Reassembly.ReassemblyBuffer.Store | udp/src/udp_reassembly.cpp:98-160 | finds or creates the entry, drops it on a mismatch, copies the fragment in, counts it and closes a full entry |
| Reassembly.ReassemblyBuffer.CloseEntry | udp/src/udp_reassembly.cpp:133-158 | coverage, then the message CRC; the entry goes in every case and the message is queued if both hold |
| Reassembly.ReassemblyBuffer.HasCompleted | udp/src/udp_reassembly.cpp:163-166 | says whether the queue is non-empty |
| Reassembly.ReassemblyBuffer.PopCompleted | udp/src/udp_reassembly.cpp:168-173 | takes the oldest completed message |
| Reassembly.ReassemblyBuffer.TickCleanup | udp/src/udp_reassembly.cpp:175-189 | exactly the entries whose 32-bit age is over the limit are erased, the others stay as they were |
| Reassembly.AddKeepsInvariant | udp/src/udp_reassembly.cpp:98-160 | every entry left has receivedCount equal to its number of received flags and below fragmentCount, so the 16-bit counter never overflows |
| Reassembly.CleanupKeepsInvariant | udp/src/udp_reassembly.cpp:175-189 | so does every entry that a cleanup leaves |
| ReassemblyRuns.EntrySourced | udp/src/udp_reassembly.cpp:98-131 | in every run, each byte of an open entry that a received fragment covers was written by a fragment accepted since the entry was created |
| ReassemblyRuns.CompletedIsAssembled | udp/src/udp_reassembly.cpp:98-158 | safety for arbitrary fragments: a completed message is the concatenation, in offset order, of exactly one accepted payload per index, all accepted since the entry was created and with the same parameters; they tile it and it carries their CRC |
| ReassemblyRuns.BirthIsCreation | udp/src/udp_reassembly.cpp:98-109 | an open entry was created at its birth and has stayed open since |
| ReassemblyAnswers.AnswerIsVerdict | udp/src/udp_reassembly.cpp:68-161 | in every run, each fragment's answer is decided by the arrivals since its entry was created: the first failing test, a duplicate, kept, or, when every index is there, the verdict on how they tile and on the CRC of their concatenation |
| ReassemblyAnswers.OpenIsDecided | udp/src/udp_reassembly.cpp:98-189 | and so is whether an entry is there: a mismatch, a failed check and a completion remove it, other refusals do not, and a cleanup goes by the time it was created |
| ReassemblyAnswers.DeliveryIsDecided | udp/src/udp_reassembly.cpp:133-158 | and what is delivered: on a completion exactly the concatenation of the arrivals, and nothing otherwise |
| ReassemblyAnswers.EntriesWithinLimit | udp/src/udp_reassembly.cpp:82-85 | no entry is ever larger than maxMessageSize |
| ReassemblyAnswers.DeliveriesWithinLimit | udp/src/udp_reassembly.cpp:82-85 | no delivered message is empty or larger than maxMessageSize |
| ReassemblyLaws.QueueIsFifo | udp/src/udp_reassembly.cpp:163-173 | the completed queue holds exactly the deliveries not yet popped, oldest first |
| ReassemblyLaws.NonInterference | udp/src/udp_reassembly.cpp:98-189 | in any interleaving, the outcomes, the entry and the completed messages of each message id are those of its own events alone |
| ReassemblyLaws.Conservation | udp/src/udp_reassembly.cpp:110-189 | completions of an id with a fragment count never exceed the arrivals of any one index of it |
| ReassemblyLaws.ExpiryIsExact | udp/src/udp_reassembly.cpp:175-189 | with ticks at most G apart and timeout + G below 2^32, a tick erases an entry exactly when its true age is over the timeout, although the clock shows 32 bits |
| ReassemblyLaws.SurvivorsYoung | udp/src/udp_reassembly.cpp:175-189 | no entry is ever old enough for its age to wrap |
| UdpSend.Sender.SendInternal | udp/src/udp_session.cpp:79-139 | a message goes out if and only if the sender is ready, it is within the size limit and a datagram holds more than 47 bytes: then exactly its fragments' datagrams in order, under the next message id, none larger than a datagram may be |
| UdpSend.DatagramSizes | udp/src/udp_session.cpp:113-138 | every datagram carries something and fits, and all but the last are full |
| UdpSend.Sender.constructor | udp/src/udp_session.cpp:11-23 | starts with message id 1 and nothing sent |
| UdpSend.PieceInMessage | udp/src/udp_client.cpp:493-502 | every fragment is non-empty, fits the packet and lies in the message, so the slice is never out of range |
| UdpSend.CountFits | udp/src/udp_session.cpp:108-109 | the 16-bit count is the true ceiling while the message fits 65535 fragments |
| UdpSend.PiecesTileIff | udp/src/udp_session.cpp:107-116 | the fragments tile a non-empty message if and only if it is at most 65535 full fragments long |
| EndToEnd.PieceArrives | udp/src/udp_session.cpp:113-138 | a sent fragment passes the receive buffer and the parser as the fragment it was cut as |
| EndToEnd.PieceStep | udp/src/udp_reassembly.cpp:98-160 | a fragment already there is a duplicate, a new one is kept, the one that was missing completes the message with the sender's bytes |
| EndToEnd.NothingEarly | udp/src/udp_reassembly.cpp:68-161 | while a fragment is missing, the entry holds exactly the fragments that came and nothing is handed over |
| EndToEnd.Delivered | udp/src/udp_session.cpp:92-138 | end to end: the message is completed by the arrival that brings its last missing fragment, with exactly the sender's bytes, under duplication, reordering, damage and other traffic |
| EndToEnd.DeliveredEachTime | udp/src/udp_reassembly.cpp:110-157 | over every sequence of arrivals, the message is handed over exactly once for each time the fragments since the last time became full, so a replay delivers it again |
| Handshake.InvariantKept | udp/src/udp_client.cpp:271-379 | every step of clients, server and network keeps: ids are numbered in order, welcomes carry ids to the endpoints they were issued to, completed clients hold ids granted to them |
| Handshake.RunKeepsInvariant | udp/src/udp_client.cpp:271-379 | and so does every run, with any number of clients, retries and reconnects |
| Handshake.IssuedIdsDistinct | udp/src/udp_server.cpp:181-208 | issued ids are pairwise distinct if and only if at most 2^64 were issued, and none is zero if and only if fewer were |
| Handshake.CompletedHoldsIssued | udp/src/udp_client.cpp:336-354 | a completed handshake holds an id that the server issued to an endpoint of that client, not zero until the counter comes round |
| Handshake.SessionsAreExclusive | udp/src/udp_server.cpp:243-262 | no two clients with completed handshakes hold the same id |
| Handshake.HandshakeCompletes | udp/src/udp_client.cpp:162-200 | from every reachable state, a waiting client gets its session once its hello and the answer arrive |
| Handshake.HelloIsHello | udp/src/udp_client.cpp:286-296 | the hello datagram is accepted as a hello |
| Handshake.WelcomeIsWelcome | udp/src/udp_server.cpp:249-253 | the welcome datagram is accepted as a welcome with its session id |
| Handshake.DataIsNoWelcome | udp/src/udp_packet.cpp:14-104 | no data datagram can pass for a welcome |
| Handshake.UdpClient.constructor | udp/src/udp_client.cpp:10-34 | a new client has no socket, no session, an empty buffer and nothing sent |
| Handshake.UdpClient.BeginHandshake | udp/src/udp_client.cpp:271-284 | forgets the session, notes the time, sends a hello |
| Handshake.UdpClient.SendHandshakeHello | udp/src/udp_client.cpp:286-296 | sends one hello datagram |
| Handshake.UdpClient.Reconnect | udp/src/udp_client.cpp:356-379 | closes the socket and forgets the session unless reconnecting is off or the client is stopping |
| Handshake.UdpClient.Resolved | udp/src/udp_client.cpp:106-149 | opens and binds the socket or schedules a reconnect, which leaves an unbound socket open when reconnecting is off; starts the handshake in every case |
| Handshake.UdpClient.ResolveFailed | udp/src/udp_client.cpp:106-117 | a failed resolve only schedules a reconnect |
| Handshake.UdpClient.ReceiveFailed | udp/src/udp_client.cpp:162-177 | a receive error schedules a reconnect unless the client is stopping |
| Handshake.UdpClient.Close | udp/src/udp_client.cpp:587-610 | the client is stopped for good and its socket closed |
| Handshake.UdpClient.HandshakeTimeout | udp/src/udp_client.cpp:298-334 | says hello again while the 32-bit time since the start is within the timeout and gives up after it; nothing when stopped or complete |
| HandshakeClock.RetryIsExact | udp/src/udp_client.cpp:298-334 | with retries at most G apart and timeout + G below 2^32, in every run the retry of a waiting client puts a hello on the network and leaves the client as it is exactly while its true time since the handshake began is within the timeout; later no hello goes out, and a client that reconnects has no socket |
| HandshakeClock.WhatEndsASession | udp/src/udp_client.cpp:106-379 | a completed handshake ends with a new start or, when reconnecting, with a failed resolve or receive, and in no other step |
| HandshakeClock.WhatClosesASocket | udp/src/udp_client.cpp:106-379 | exactly which steps close an open socket |
| HandshakeClock.WhatOpensASocket | udp/src/udp_client.cpp:106-149 | exactly which steps open one |
| HandshakeClock.WhatSaysHello | udp/src/udp_client.cpp:271-334 | a hello goes out at every beginning and at every retry in time, from an open socket, and at no other step |
| Handshake.UdpClient.TryOpen | udp/src/udp_client.cpp:125-149 | a failed open or bind schedules a reconnect; an open socket is not opened again |
| Handshake.UdpClient.Receive | udp/src/udp_client.cpp:162-269 | takes the session id of the first valid welcome and ignores later ones; a fragment of the client's session goes into its buffer, and exactly what that completes is queued as messages, none of them larger than the limit |
| Handshake.UdpClient.EmitCompletedMessages | udp/src/udp_client.cpp:541-585 | drains the completed queue into the messages, in order |
| ServerLog.InvariantKept | udp/src/udp_server.cpp:181-341 | every handler, cleanup and tick keeps: each session's buffer is what its own history makes of an empty one and is drained, and each session's events tell its story |
| ServerLog.EverySessionIsTold | udp/src/udp_server.cpp:181-341 | in every run, a session's events are Connected, then exactly the messages its buffer completed, in order, then Disconnected if it ended |
| ServerLog.MapHoldsLiveSessions | udp/src/udp_server.cpp:197-240 | the session map holds exactly the sessions announced as connected and not as disconnected |
| ServerLog.TimesConnected | udp/src/udp_server.cpp:181-208 | each id is announced as connected once for each time the counter handed it out |
| ServerLog.LogsWellFormedIff | udp/src/udp_server.cpp:181-208 | all sessions' parts of the log are well formed if and only if at most 2^64 sessions were created |
| ServerLog.ListenerGetsTheLog | udp/src/udp_server.cpp:351-396 | every event is delivered, pending or was dropped by a tick without a listener; delivered followed by pending is the log, in order, if and only if none was dropped |
| ServerEffects.MessagesWithinLimit | udp/src/udp_session.cpp:218-267 | no message in the log is empty or larger than maxMessageSize |
| ServerEffects.EndSessionEnds | udp/src/udp_server.cpp:219-241 | ending a live session removes it and logs one Disconnected; an unknown one changes nothing |
| ServerEffects.ClosedIsSwept | udp/src/udp_session.cpp:53-72 | a session the application closes is ended by the next cleanup, whatever happens in between, and announced |
| ServerEffects.ClosedWasRequested | udp/src/udp_session.cpp:53-56 | only the application marks a live session closed |
| ServerEffects.CleanupLeaves | udp/src/udp_server.cpp:290-331 | in each session that goes on, a cleanup leaves exactly the entries within the limit, unchanged |
| ServerEffects.ListenerHears | udp/src/udp_server.cpp:357-406 | over every run the listener is called with exactly the stretch of the log since the last tick, at each tick at which one is set |
| ServerClock.SessionExpiryIsExact | udp/src/udp_session.cpp:63-72 | with cleanups at most G apart and timeout + G below 2^32, over every run a cleanup ends a session exactly when it was closed or its true silence is over the timeout |
| ServerLog.HelloKeeps | udp/src/udp_server.cpp:181-208 | creating a session keeps the invariant |
| ServerLog.FragmentKeeps | udp/src/udp_session.cpp:158-267 | a data fragment keeps the invariant: what its buffer completed, and nothing else, is added to its own session's story |
| ServerLog.EndKeeps | udp/src/udp_server.cpp:219-241 | ending a session keeps the invariant |
| ServerLog.CleanupKeeps | udp/src/udp_server.cpp:290-341 | a cleanup keeps the invariant, in whatever order it meets the sessions |
| ServerObjects.SessionImpl.constructor | udp/src/udp_session.cpp:11-23 | a new session was seen now, is open and has an empty buffer |
| ServerObjects.SessionImpl.OnDatagram | udp/src/udp_session.cpp:158-214 | notes the time and adds the fragment to the buffer |
| ServerObjects.SessionImpl.Close | udp/src/udp_session.cpp:53-56 | marks the session closed |
| ServerObjects.SessionImpl.TickCleanup | udp/src/udp_session.cpp:63-72 | cleans the buffer and marks the session closed after its timeout |
| ServerObjects.ServerImpl.constructor | udp/src/udp_server.cpp:9-25 | no sessions, no events, next id 1 |
| ServerObjects.ServerImpl.CreateSession | udp/src/udp_server.cpp:181-208 | the state after is that of the hello step; the new session's objects are fresh |
| ServerObjects.ServerImpl.HandleHandshakeHello | udp/src/udp_server.cpp:243-262 | creates a session and answers with the welcome for its id |
| ServerObjects.ServerImpl.OnReceive | udp/src/udp_server.cpp:140-168 | answers a hello with exactly one welcome, which carries the id of a session that is there now, and answers nothing else; the state after is that of the receive step |
| ServerHandshake.Refines | udp/src/udp_server.cpp:140-262 | every run of the full server with clients and network is, from outside, a run of the handshake system: its replies are that system's |
| ServerHandshake.HandshakeCompletesHere | udp/src/udp_server.cpp:140-262 | from every reachable state, a waiting client whose hello this server receives gets its session from the answer, and the session is in the map and announced |
| ServerHandshake.CompletedIsConnected | udp/src/udp_server.cpp:181-262 | a completed handshake holds an id the server announced as connected |
| ServerHandshake.ClientsAreApart | udp/src/udp_server.cpp:243-262 | two clients that completed with this server never hold one session while at most 2^64 were created |
| ServerObjects.ServerImpl.HandleDataFragment | udp/src/udp_server.cpp:264-288 | the state after is that of the fragment step, and only the one session changes |
| ServerObjects.ServerImpl.EmitCompletedMessages | udp/src/udp_session.cpp:218-267 | drains the session's completed queue into the events, in order |
| ServerObjects.ServerImpl.CloseSession | udp/src/udp_server.cpp:219-241 | erases the session and enqueues Disconnected; nothing for an unknown id |
| ServerObjects.ServerImpl.RequestClose | udp/src/udp_session.cpp:53-56 | marks one session and leaves the others |
| ServerObjects.ServerImpl.TickSessionsCleanup | udp/src/udp_server.cpp:290-331 | erases exactly the closed and timed-out sessions, cleans the buffers of all, and enqueues one Disconnected for each erased one |
| ServerObjects.ServerImpl.ProcessTick | udp/src/udp_server.cpp:357-396 | hands all pending events to the listener in order, or drops them without one |
| ServerObjects.ServerImpl.SetupListener | udp/src/udp_server.cpp:403-406 | changes the listener and nothing else |
| ServerDelivery.FragmentsGather | udp/src/udp_server.cpp:264-288 | while a fragment of a message is missing, the session's buffer holds exactly those that came, whatever else the server handles meanwhile, cleanups that spare the entry included |
| ServerDelivery.MessageReachesTheLog | udp/src/udp_session.cpp:79-267 | the whole way: the datagram that brings the last missing fragment adds exactly the sender's message, for its session, to the event log |
| ServerDelivery.EarlierFragmentsAreQuiet | udp/src/udp_session.cpp:158-216 | each earlier fragment leaves the log as it was |
| MySqlPool.InvariantKept | mysql/src/mysql_client.cpp:173-392 | every step of workers, callers, ticks and stopping keeps: connections and jobs are conserved, free connections and queued jobs are covered by wake-ups, and a thread about to sleep has seen an empty pool |
| MySqlPool.ConnectionsAreConserved | mysql/src/mysql_client.cpp:368-392 | free and held connections together are all connections, each exactly once |
| MySqlPool.ConnectionsAreExclusive | mysql/src/mysql_client.cpp:368-392 | two threads never hold the same connection |
| MySqlPool.JobsAreInOnePlace | mysql/src/mysql_client.cpp:173-366 | every submitted job is in exactly one of queued, with a worker, completed, being delivered, delivered, finished without a callback; one with a callback is never dropped |
| MySqlPool.BlockedMeansHeld | mysql/src/mysql_client.cpp:368-392 | a thread blocked on the pool means that nothing is free and another thread holds a connection |
| MySqlPool.FreeKept | mysql/src/mysql_client.cpp:370-391 | no lost wake-up on the pool: while threads sleep, woken ones cover all free connections |
| MySqlPool.QueuedJobsAreFetched | mysql/src/mysql_client.cpp:173-184 | no lost wake-up on the queue, although it is notified after the mutex is released |
| MySqlPool.StopMissesAtMostOne | mysql/src/mysql_client.cpp:152-158 | after stopping at most one thread is still asleep, and the next connection returned wakes it |
| MySqlPool.LateSleeperIff | mysql/src/mysql_client.cpp:152-158 | a thread is ever asleep on the pool after stopping, before a connection is returned, if and only if it was between its check and its sleep when everybody was notified |
| MySqlPool.StopCanMissOne | mysql/src/mysql_client.cpp:152-158 | a run with two workers and one connection after which a thread sleeps although everybody was notified |
| MySqlPool.CallbacksRunInOrder | mysql/src/mysql_client.cpp:222-366 | with one worker, the callbacks run in the order the jobs were submitted |
| MySqlOrder.JobsLeaveInOrder | mysql/src/mysql_client.cpp:321-332 | with any number of workers, the jobs taken, then the jobs waiting, are the jobs submitted, in order |
| MySqlOrder.ConnectionsGoRound | mysql/src/mysql_client.cpp:368-392 | the connections taken, then the free ones, are all connections followed by those given back, in order |
| MySqlOrder.CallbacksFollowCompletion | mysql/src/mysql_client.cpp:232-366 | with any number of workers, callbacks run in the order the jobs were done |
| MySqlOrder.GivesUpOnlyIfStopping | mysql/src/mysql_client.cpp:321-381 | a thread comes back without a connection only when stopping or when there are none at all, and a worker leaves only when stopping |
| MySqlOrder.NothingHandedOutAfterStop | mysql/src/mysql_client.cpp:370-377 | once the client is stopping nobody is given a connection |
| MySqlOrder.NobodyWaitsForJobs | mysql/src/mysql_client.cpp:152-158 | once everybody was told of the stop, no worker ever waits for a job again |
| MySqlPool.ClientImpl.constructor | mysql/src/mysql_client.cpp:113-114 | all connections start free |
| MySqlPool.ClientImpl.Execute | mysql/src/mysql_client.cpp:173-182 | the locked part appends the job, as the submit step does |
| MySqlPool.ClientImpl.TakeJob | mysql/src/mysql_client.cpp:321-332 | the locked part takes the oldest job, waits or leaves, as the fetch step does |
| MySqlPool.ClientImpl.TryAcquire | mysql/src/mysql_client.cpp:368-381 | the locked part takes the first free connection, gives up or waits, as the check step does |
| MySqlPool.ClientImpl.ReleaseConnection | mysql/src/mysql_client.cpp:383-392 | the locked part puts the connection at the back, as the release step does |
| MySqlPool.ClientImpl.Complete | mysql/src/mysql_client.cpp:353-364 | a job with a callback is queued for delivery, another one is done with |
| MySqlPool.ClientImpl.ProcessTick | mysql/src/mysql_client.cpp:232-255 | the callbacks of everything completed run once each, in order |
| SendQueue.RunKeepsInvariant | websocket/src/websocket_session.cpp:192-271 | every interleaving of senders and write callbacks keeps: at most one writer, the flag says whether there is one, a queued message has one, and nothing is lost or reordered |
| SendQueue.OneWriter | websocket/src/websocket_session.cpp:192-271 | there is never more than one writer |
| SendQueue.FlagIsWriter | websocket/src/websocket_session.cpp:192-271 | writeInProgress holds if and only if there is a writer, until a write fails; then there is none and the flag stays up |
| SendQueue.FailureIsFinal | websocket/src/websocket_client.cpp:690-714 | after a failed write nothing is ever written again: messages only pile up behind the raised flag |
| SendQueue.NoLostWakeUp | websocket/src/websocket_client.cpp:621-714 | a queued message has a writer coming for it, unless a write failed |
| SendQueue.OrderIsEnqueueOrder | websocket/src/websocket_client.cpp:621-714 | written, then failed, then under way, then queued is exactly the enqueue order |
| SendQueue.Drains | websocket/src/websocket_session.cpp:229-271 | from every state without a failure, the writer's own steps write everything that was enqueued and clear the flag |
| SendQueue.Queue.Push | websocket/src/websocket_session.cpp:194-203 | the locked part of enqueueing |
| SendQueue.Queue.Take | websocket/src/websocket_session.cpp:233-243 | the locked part of DoWrite |
| Snake.PulledWithin | legacy_game/src/legacy_game_math.cpp:65-76 | a segment that is too far ends exactly the limit away and moves exactly the excess; another one stays |
| Snake.PulledNoFurther | legacy_game/src/legacy_game_math.cpp:65-76 | a segment never moves further than the one ahead of it moved, by the triangle inequality |
| Snake.MoveMakesChain | legacy_game/src/legacy_game_math.cpp:59-80 | however the body lay before, after the move adjacent segments are within the limit |
| Snake.NoneOvertakes | legacy_game/src/legacy_entities/snake.hpp:50-55 | when only the head left the chain, no segment moves further than the one ahead of it |
| Snake.NoneOutrunsHead | legacy_game/src/legacy_entities/snake.hpp:50-55 | so none moves further than the head |
| Snake.ResizedChain | legacy_game/src/legacy_entities/snake.hpp:93-106 | growing and shrinking keep a chain a chain |
| Snake.WholeIff | legacy_game/src/legacy_entities/snake.hpp:69-106 | every operation keeps the snake whole, gaining experience exactly when the 32-bit counter does not come out below 30 |
| Snake.RunKeepsWhole | legacy_game/src/legacy_entities/snake.hpp:25-145 | every run without overflow keeps adjacent segments within the step distance and the length at experience / 10, at least 3 |
| Snake.HeadIsWherePut | legacy_game/src/legacy_entities/snake.hpp:50-145 | in every run without overflow the head is where it was last accepted, set or reborn |
| Snake.ExperienceIsAccount | legacy_game/src/legacy_entities/snake.hpp:69-145 | in every run without overflow the 32-bit counter is the plain account of gains and of the losses that leave more than 30 |
| Snake.ResizedShape | legacy_game/src/legacy_entities/snake.hpp:93-106 | which old segment each new one is: the head, repetitions of the second, and the rest in order |
| Snake.SnakeEntity.constructor | legacy_game/src/legacy_entities/snake.hpp:25-31 | three segments at the start point, experience 30 |
| Snake.SnakeEntity.MoveEverySegmentToTop | legacy_game/src/legacy_game_math.cpp:59-80 | the in-place walk gives each segment its pulled place |
| Snake.SnakeEntity.AcceptMove | legacy_game/src/legacy_entities/snake.hpp:50-55 | the head goes there and the body follows |
| Snake.SnakeEntity.RecalculateLength | legacy_game/src/legacy_entities/snake.hpp:93-106 | repeats the second segment or drops the tail until the length is experience / 10 |
| Snake.SnakeEntity.AddExperience | legacy_game/src/legacy_entities/snake.hpp:69-74 | 32-bit addition, then the new length |
| Snake.SnakeEntity.TakeExperience | legacy_game/src/legacy_entities/snake.hpp:76-86 | refuses what would leave 30 or less, otherwise subtracts and shortens |
| Snake.SnakeEntity.SetPosition | legacy_game/src/legacy_entities/snake.hpp:128-132 | all segments at one point |
| Snake.SnakeEntity.Respawn | legacy_game/src/legacy_entities/snake.hpp:134-145 | experience 30, three segments, all at one point |
| Base32.DecodeBase32 | crypt/src/crypt.cpp:297-329 | for every text, the first whole bytes of its concatenated five-bit groups, or the error if a character is neither letter, space nor padding; although the accumulator wraps |
| Base32.LowBits | crypt/src/crypt.cpp:318-319 | the bits still to be used survive the 32-bit wrap |
| Base32.TopByte | crypt/src/crypt.cpp:322-325 | the byte shifted out is the top eight of them, and the rest stays |
| Base32.MeaningLength | crypt/src/crypt.cpp:309-326 | n letters make floor(5n/8) bytes |
| Base32.LettersStand | crypt/src/crypt.cpp:297-316 | letters in either case stand for 0 to 25 and the digits 2 to 7 for 26 to 31 |
| Base32.ValidIff | crypt/src/crypt.cpp:309-316 | exactly which characters a text may have |
| Base32.DecodingIsConversion | crypt/src/crypt.cpp:309-326 | the data as a number in base 256 is the letters as a number in base 32, without the bits that do not fill a byte |
| Base32.AnyLayoutDecodes | crypt/src/crypt.cpp:309-316 | any layout, case, spacing and padding of the groups of some data decodes to that data |
| Base32.RoundTrip | crypt/src/crypt.cpp:297-329 | decoding the encoding of section 6 of RFC 4648 is the identity on every byte string |

## Left out

- Sockets, resolvers, asio threads and buffer lifetimes: the network is a set of built datagrams with send, deliver, repeat and lose steps, and a sent datagram is an entry of a list.
- Handshake: an endpoint is bound by one client and never again, and the network carries only datagrams that were built; what damage does to them is UdpEdges.BurstAcceptedIff.
- Races inside one UDP handler: a handler and a cleanup are one step each, and the server's own clock readings are parameters.
- UdpClient: connection events and ProcessTick of the client are not kept; its completed messages are.
- SessionImpl: emitting completed messages is a method of the server here, because the source's session calls back into the server that owns it; the endpoint a session is answered at is not kept.
- ServerDelivery: a cleanup that ends the session or finds the entry too old is excluded while the message is under way; when that happens is ServerClock.SessionExpiryIsExact and ReassemblyLaws.ExpiryIsExact.
- Entries of the reassembly buffer are values in a map that is updated; the aliasing of the source's reference into that map is not modelled.
- The sort by offset and the mathematics library's hypot are parameters with the property their documentation gives them; cosine and sine of an arc tangent are the unit vector.
- Floating-point rounding, head steering, random points, Bezier curves, camera and collision helpers.
- The Net setters of the snake: they install remote state and are not meant to keep the chain.
- MySQL reconnect, SQL and result conversion: reconnecting is off, and a query is one step of the thread that holds the connection.
- MySqlPool: the check and the sleep on the job queue are one step, because the stop token wakes that wait in any case; one thread at a time calls ProcessTick; exceptions thrown by callbacks are caught and logged in the source.
- JSON and text event modes: the same path as bytes, with a foreign parser at its end.
- The code around OpenSSL (RSA, AES-GCM, HMAC, JWT, TOTP, Base64url).
- ByteWriter and ByteReader, the typed game messages and the full-update headers.
- Base32: a char is a character value; the source's call of isspace on a negative char is undefined.
- Coroutines, the event system, the service loader, logging, the double map and environment helpers.
