# A verified model of the game server's transport and room core

Dafny models of the byte-stream stack of the server (frame codec, CRC32C, receive buffer, write queue, close
handshake, session table), of the maps and room state above it, and of the command machine of a running game, with
proofs of what they keep over whole runs. `dafny verify dfyconfig.toml` checks everything; for a bounded and reproducible
run add `--resource-limit 2000000 --verification-time-limit 0`.

| file | models |
|---|---|
| `Bytes.dfy`, `Words.dfy`, `Collections.dfy` | byte strings and network order, words as bit lists, sublists and distinct lists |
| `Crc32C.dfy` | the three forms of the checksum of section 12.1 of RFC 3720 against a bit-serial reference, and burst detection |
| `CheckValue.dfy` | the check value of appendix B.4 of RFC 3720 |
| `Codec.dfy` | the header, `EncodeSync`, `DecodeSync` and the heartbeat frame |
| `Stream.dfy` | decoding streams of frames: arbitrary cuts, progress |
| `Garbage.dfy` | finding the frames behind garbage |
| `RoundTrip.dfy` | decoding what the encoder made |
| `Unchecked.dfy` | what the decoder does not look at |
| `TcpConnection.dfy` | the write queue as strand steps |
| `ClientSession.dfy` | the receive buffer and the send path |
| `ReceiveBuffer.dfy` | which frames and reads fit the receive buffer |
| `EndToEnd.dfy` | sender, connection and peer together |
| `SessionProtocol.dfy` | the close handshake and the session table under every interleaving |
| `SessionManager.dfy` | the session manager object and its mutual recursion with `DoClose` |
| `UserSessionMap.dfy`, `MsgRouter.dfy` | users, sessions and routing |
| `Group.dfy`, `GameRoom.dfy`, `GameRoomManager.dfy` | groups, rooms and the room directory |
| `Announcement.dfy` | broadcasts to a room and the end of a game |
| `GameCmdHandler.dfy` | commands of a running game |

Objects that the server updates in place are classes. Each of their methods is proved against a function on the
object's state (`Step`, `Decode`, `Bind` and so on), and the theorems are about those functions over arbitrary runs.
Tasks on a strand and sections under a lock are atomic steps; completions, reads and timeouts come in any order.

Where the code does not do what its surroundings suggest, the model follows the code:

- `EncodeSync` refuses empty payloads before it looks at heartbeats, so it never encodes one; heartbeats are modelled
  through `createHeartbeatFrame`.
- `DecodeSync` leaves the protocol type of data frames at zero, and frames are not put together again: round trips
  give back the identifiers, the two types and the payload chunks.
- `DecodeSync` checks neither version nor flags nor position nor checksum (`Unchecked.StreamsAlike`), so a burst that
  the checksum would reveal is delivered as a message: `Unchecked.BurstAccepted`.
- A data frame with a payload length below 2 at the end of the input is read past its end: `Stream.BareHeader`, and
  exactly when: `Stream.ReadsOutsideIff`.
- A call that decodes some frames and then stops at an incomplete or foreign frame is not a success, and the session
  drops the messages it did decode: `Session.HeartbeatDropped`. `Session.Delivery` gives the exact condition under
  which nothing is lost.
- The overflow check of the receive buffer is commented out, and `Session.Delivery` says exactly when it is missed: the
  header allows frames of 65561 bytes, which overflow the buffer however they are cut (`ReceiveBuffer.LongestFrame`).
  With reads of at most 4096 bytes frames of up to 61441 bytes never do, and a longer one can if enough follows it
  (`ReceiveBuffer.SafeFramesFit`, `ReceiveBuffer.UnsafeFrameOverflows`); those of the encoder have at most 4124
  (`ReceiveBuffer.BufferBound`, and over whole runs `EndToEnd.ReadsFit`).
- A read that ends inside the magic behind garbage can lose the frame: `Garbage.ResyncReads` says exactly when, and
  `Garbage.AfterLoss` when the reads are in step again.
- A write that is sent in full before `DoClose`, and whose completion comes after it, meets an empty queue:
  `WriteQueue.SentThenClosed`, and at no other time: `WriteQueue.PopsEmptyIff`.
- `CreateSession` does not start the heartbeat sweep, its call is commented out; the sweep is modelled as it would
  run.
- `Bind` leaves the old entry of a user whose session is taken over (`UserSessions.Takeover`, exactly when:
  `UserSessions.FullIff`), and what follows is in `UserSessions.StaleIff` and `UserSessions.Surplus`.
- A room code that is in use keeps its old room, and dissolving either room erases it:
  `RoomDirectory.Collision`, `RoomDirectory.CollisionLosesCode`, and exactly when: `RoomDirectory.ReachableIff`.
- `KickPlayer` and `DissolveRoom` leave the player count as it is: `Rooms.KickedStillCounted`, and by how much it is
  off: `Rooms.PlayerCount`.
- `JoinRoom` sets the player's current room before the group decides.
- `GameEndCheck` looks only at players that have failed already, and nothing else makes one fail, so every game ends
  without a winner: `GameCommands.NobodyWins`. The end is announced whenever a base falls, so the first one to fall
  ends the game, whoever is left: `GameCommands.EndsAnnounced`. A move adds nothing to its target, and a won attack
  subtracts 2 with wrap-around: `GameCommands.WonAttackOutcome`.
- The announcement of the end has protocol type 0, which is that of a heartbeat, and a payload. The encoder refuses it,
  so it reaches no member: `Announcement.AnnounceEnd`.

## Model

| member | source | states |
|---|---|---|
| Crc32C.Crc32CHardware | src/core/ToolFunc.hpp:43-84 | the 64/32/8-bit and the 32/8-bit word loops return the serial reference checksum, and the value of the bit loop |
| Crc32C.Crc32CBitwise | src/core/ToolFunc.hpp:86-97 | the bit loop returns the function the codec uses |
| Crc32C.PortableIsChecksum | src/core/ToolFunc.hpp:86-97 | for every byte string the bit loop's register, read as bits, is the bit-serial reference: three forms, one checksum |
| Crc32C.WordStepIsFeed | src/core/ToolFunc.hpp:50-81 | a 64-, 32- or 8-bit word step (that many one-bit reflected divisions) equals feeding its bits one at a time |
| Crc32C.DivideIsFeed | src/core/ToolFunc.hpp:86-94 | after n divisions of word and register together the register is the one that has been fed the first n bits |
| Crc32C.FeedWord | src/core/ToolFunc.hpp:47-66 | consuming a word first leaves the final register of the whole string unchanged |
| Crc32C.DivideInjective | src/core/ToolFunc.hpp:87-94 | one division step is injective, because the polynomial has its top bit set |
| Crc32C.WindowInjective | src/core/ToolFunc.hpp:86-95 | feeding two different strings of at most 32 bits to one register gives different registers |
| Crc32C.FeedInjective | src/core/ToolFunc.hpp:86-95 | feeding the same bits to two different registers gives different registers |
| Crc32C.BurstDetected | src/core/ToolFunc.hpp:86-97 | different byte strings of equal length whose differing bits lie in 32 consecutive bits have different checksums |
| Crc32C.PolyExponents | src/core/ToolFunc.hpp:87 | the polynomial is the reflected Castagnoli polynomial: bit i is the coefficient of exponent 31 - i, for its 17 exponents below 32 |
| CheckValue.CountingChecked | src/core/ToolFunc.hpp:86-97 | the checksum of the bytes 0 to 31 is 0x46DD794E, the value RFC 3720 gives |
| CheckValue.CountingInHeader | src/network/codec/mTcpCodec.hpp:101 | so is the number the codec puts in a header for these bytes |
| Codec.HeaderRoundTrip | src/protocol/mTcpProto.h:23-36 | reading a packed header, whatever follows it, gives back every field |
| Codec.HeaderBytes | src/protocol/mTcpProto.h:9-36 | what stands in each of the 26 bytes: the magic 48 12 31 23, version 1, the type, and every field at its offset, most significant byte first |
| Codec.FindNextMagic | src/network/codec/mTcpCodec.hpp:125-137 | the search returns the first place at or after the start where the magic stands, or the input size |
| Codec.DecodeSync | src/network/codec/mTcpCodec.hpp:122-187 | the decoding loop computes `Decode`, whose meaning the `Stream` and `RoundTrip` rows give |
| Codec.EncodeChunk | src/network/codec/mTcpCodec.hpp:73-117 | one round of the loop makes exactly the frame of its chunk, with the checksum the bit loop returns for what follows the header |
| Codec.EncodeSync | src/network/codec/mTcpCodec.hpp:41-120 | the encoder computes `Encode`, error cases included |
| Codec.NextMagicShift | src/network/codec/mTcpCodec.hpp:125-137 | searching from an offset is searching the rest of the input |
| Stream.DecodeShape | src/network/codec/mTcpCodec.hpp:122-186 | a call returns the messages of the frames it passes; success, each error (too short an input included) and the offset are determined by what is left |
| Stream.FrameFirst | src/network/codec/mTcpCodec.hpp:147-183 | a frame followed by anything decodes to its message and then to what follows |
| Stream.FramesFirst | src/network/codec/mTcpCodec.hpp:147-183 | the same for any list of frames |
| Stream.PieceWaits | src/network/codec/mTcpCodec.hpp:156-162 | a proper beginning of a frame decodes to nothing and is kept whole |
| Stream.CutAnywhere | src/network/codec/mTcpCodec.hpp:147-183 | any beginning of a stream of frames is whole frames and a proper beginning of the next |
| Stream.DecodeCut | src/network/codec/mTcpCodec.hpp:139-186 | decoding any beginning of a stream gives exactly the completed frames and leaves the piece of the next |
| Stream.CostBound | src/network/codec/mTcpCodec.hpp:139-186 | the offset never passes the end of the input |
| Stream.Progress | src/network/codec/mTcpCodec.hpp:139-161 | a call that consumes nothing has too little input; a rejected header skips no complete magic |
| Stream.TypedReads | src/network/codec/mTcpCodec.hpp:172-179 | an input whose data frames along the scan have their two type bytes is not read past its end, and what the scan leaves is such an input again |
| Stream.TypedStream | src/network/codec/mTcpCodec.hpp:172-179 | every beginning of a stream of well-formed frames is such an input, whatever their payloads hold |
| Stream.ReadsOutsideIff | src/network/codec/mTcpCodec.hpp:163-179 | the decoder reads past its input if and only if the scan comes to a whole data frame of payload length below 2 with fewer than two bytes behind its header |
| Stream.BareHeader | src/network/codec/mTcpCodec.hpp:172-179 | a data header with payload length 0 and nothing behind it, 26 bytes, is such an input |
| Stream.Settle | src/network/codec/mTcpCodec.hpp:139-186 | on every such input repeated decode-and-drop ends within one call per byte, in front of less than a header or one incomplete frame |
| Garbage.NoStraddle | src/network/codec/mTcpCodec.hpp:125-137 | no false magic stands across the end of garbage and the start of a frame |
| Garbage.Resync | src/network/codec/mTcpCodec.hpp:147-154 | the first call drops exactly the garbage, the second returns every frame |
| Garbage.ResyncCut | src/network/codec/mTcpCodec.hpp:125-154 | when the read ends inside the stream, the offset lines up with the first frame if and only if the read does not end inside that frame's magic |
| Garbage.ResyncReads | src/network/codec/mTcpCodec.hpp:125-186 | garbage and frames in any reads: the reads stay in step with the frames if and only if none decodes 26 or more bytes that end one to three bytes into the first frame, and then every frame that has come in has been or will be decoded |
| Garbage.AfterLoss | src/network/codec/mTcpCodec.hpp:125-186 | after the read that loses the first frame the receiver is as new and the rest of that frame is garbage in front of the second: if it holds no magic, the later reads are in step with the later frames if and only if none of them loses the second frame the same way, and then every later frame is decoded |
| Garbage.FalseFrame | src/network/codec/mTcpCodec.hpp:147-183 | if the rest of the lost frame contains bytes that read as a frame, those are delivered as a message |
| Stream.DecodeWhole | src/network/codec/mTcpCodec.hpp:146-186 | whole frames decode in one call: every message, every byte consumed |
| Stream.ReceiveCut | src/network/session/ClientSession.cpp:62-72 | after one more read the kept bytes and messages depend only on how much of the stream has come in |
| Stream.ChunkIndependence | src/network/session/ClientSession.cpp:62-72 | for any frames and any cutting into reads the messages are those of one decoding, and the remainder is a proper piece of one frame |
| RoundTrip.CountsFit | src/network/codec/mTcpCodec.hpp:88-113 | no narrowing to 16 bits loses a value |
| RoundTrip.PackedFrame | src/network/codec/mTcpCodec.hpp:156-181 | a packed header of any type but the heartbeat's, in front of any body with the two type bytes, is a frame, and decodes to its identifier, the two types and what follows them, which may be nothing |
| RoundTrip.PackedHeartbeat | src/network/codec/mTcpCodec.hpp:163-171 | a packed heartbeat header in front of any payload is a frame, and decodes to its identifier without a payload |
| RoundTrip.RequestWithoutPayload | src/business/GameRoom/RoomReqHandler.cpp:176-181 | a request of 28 bytes, without a payload, arrives under its identifier, which is the one it is answered under |
| RoundTrip.FrameCorrect | src/network/codec/mTcpCodec.hpp:73-117 | each frame is well formed and decodes to its chunk with the message's identifiers |
| RoundTrip.FramesCorrect | src/network/codec/mTcpCodec.hpp:73-117 | so do the first k frames, in order |
| RoundTrip.EncodedLength | src/network/codec/mTcpCodec.hpp:56-58 | the first k frames take up the bytes they cover plus 28 each |
| RoundTrip.EncodedShape | src/network/codec/mTcpCodec.hpp:49-117 | exactly the reserved size, as few frames of 4096 bytes as the payload needs, at most 2560, and in every frame the magic, version 1, type 2, the position, total, flags and the word `Crc32C` returns for the bytes behind the header |
| RoundTrip.ChunkLength | src/network/codec/mTcpCodec.hpp:74-76 | all chunks but the last have 4096 bytes |
| RoundTrip.ChunksConcat | src/network/codec/mTcpCodec.hpp:73-98 | the first k chunks put together are the covered part of the payload |
| RoundTrip.EncodeDecode | src/network/codec/mTcpCodec.hpp:41-187 | decoding an encoding succeeds, consumes every byte, and gives ceil(n/4096) messages with the same identifiers whose payloads concatenate to the original |
| RoundTrip.EncodeRefuses | src/network/codec/mTcpCodec.hpp:43-70 | refused are exactly empty payloads and those of more than 10 MB, with the size error, and all other heartbeats, with theirs; the fragment guard never fires |
| RoundTrip.HeartbeatRoundTrip | src/network/codec/mTcpCodec.hpp:189-199 | a heartbeat frame is well formed, 26 bytes long, version 1 and type 0, zero in every other field, and decodes to its identifier |
| Unchecked.DecodesAlike | src/network/codec/mTcpCodec.hpp:147-180 | bytes that agree with a frame outside version, flags, position and checksum are a frame with the same message |
| Unchecked.StreamsAlike | src/network/codec/mTcpCodec.hpp:139-186 | streams of such frames give the same messages |
| Unchecked.BurstAccepted | src/network/codec/mTcpCodec.hpp:163-180 | a frame of the encoder with a burst of up to 32 bits behind its header no longer fits its checksum, is still a frame, and decodes to a message with the changed bytes |
| Session.OnRecvCut | src/network/session/ClientSession.cpp:53-84 | a read of a stream that fits the 64 KB buffer keeps what the whole stream so far would leave, and delivers what it completes unless it is lossy; a read that does not fit overflows the buffer |
| Session.OnRecvReads | src/network/session/ClientSession.cpp:53-84 | on any input, frames or not, a read that fits moves the buffer on as the decoder says and delivers what was decoded exactly when less than a header is left |
| Session.Delivery | src/network/session/ClientSession.cpp:53-84 | the buffer overflows if and only if some read does not fit behind the unfinished frame before it; otherwise the delivered messages are an in-order selection of those of the completed frames, and all of them if and only if no read is lossy |
| Session.LossyMeans | src/network/session/ClientSession.cpp:65-76 | a read is lossy exactly when the decoder finds messages in it and stops with 26 or more bytes left |
| Session.HeartbeatDropped | src/network/session/ClientSession.cpp:74-76 | one read of a heartbeat frame and 26 bytes of a data frame: the heartbeat is consumed and never delivered |
| Session.ShallowReadsLossless | src/network/session/ClientSession.cpp:74-76 | reads that never end 26 or more bytes into an unfinished frame lose nothing |
| ReceiveBuffer.EncoderFramesSmall | src/network/codec/mTcpCodec.hpp:26-98 | every frame the encoder makes fits in 4124 bytes |
| ReceiveBuffer.BufferBound | src/network/session/ClientSession.cpp:57-63 | for encoder-made and heartbeat frames and reads of at most 4096 bytes the buffer peaks at 8219 bytes or less, and decoding stays inside it |
| ReceiveBuffer.SafeFramesFit | src/network/session/ClientSession.cpp:57-63 | streams of frames of up to 61441 bytes fit in any reads of at most 4096 bytes |
| ReceiveBuffer.UnsafeFrameOverflows | src/network/session/ClientSession.cpp:57-63 | for every longer frame in a stream with more than 64 KB from its start on, some reads of at most 4096 bytes overflow the buffer |
| ReceiveBuffer.LongFrameOverflows | src/network/session/ClientSession.cpp:57-63 | a frame longer than the buffer overflows it in any reads that complete it |
| ReceiveBuffer.LongestFrame | src/network/session/ClientSession.cpp:57-63 | a well-formed frame of 65561 bytes, which every cutting makes overflow the buffer |
| Session.ClientSession.constructor | src/network/session/ClientSession.hpp:38-39 | an empty buffer, no connection |
| Session.ClientSession.Append | src/network/session/ClientSession.cpp:62-63 | the copy loop puts the new bytes behind the used ones |
| Session.ClientSession.Drop | src/network/session/ClientSession.cpp:68-72 | the shift in place leaves exactly the bytes behind the offset |
| Session.ClientSession.OnSocketRecv | src/network/session/ClientSession.cpp:53-84 | the buffer and the deliveries after a read are those of `OnRecv` |
| Session.ClientSession.SendMessage | src/network/session/ClientSession.cpp:86-97 | what is sent, under which identifier, and exactly when; the caller's message keeps the generated identifier even if it is refused |
| Session.SendsUnder | src/network/session/ClientSession.cpp:86-97 | a message goes out under its own identifier, or the generated one if it has none; every piece a peer decodes carries it, with the types and the payload of the message; nothing goes out exactly for what the encoder refuses |
| Session.ClientSession.Close | src/network/session/ClientSession.cpp:99-103 | closes the connection, if there is one |
| WriteQueue.SendInv | src/network/session/TcpConnection.cpp:24-37 | a send keeps the queue invariant: it starts no second write |
| WriteQueue.TransmitInv | src/network/session/TcpConnection.cpp:92-104 | so does any partial write of any outstanding write |
| WriteQueue.WriteDoneInv | src/network/session/TcpConnection.cpp:100-109 | so does a completion, which starts the write of the next payload |
| WriteQueue.RunInv | src/network/session/TcpConnection.cpp:24-110 | in every reachable open state the number of writes handed to the socket and not completed is 1 iff the queue is non-empty and 0 otherwise, the one is the front's, and completed followed by queued payloads are the accepted ones in order |
| WriteQueue.StartOnce | src/network/session/TcpConnection.cpp:9-18 | starting sets the flag unless the connection is closed, and a second start does nothing |
| WriteQueue.SendQueues | src/network/session/TcpConnection.cpp:24-37 | a send on an open connection is accepted last, and written at once exactly when no write is outstanding |
| WriteQueue.WriteDonePops | src/network/session/TcpConnection.cpp:100-109 | in every reachable open state a completed write takes its payload off the queue and starts the write of the next one |
| WriteQueue.WriteFailedCloses | src/network/session/TcpConnection.cpp:101-104 | a failed write is over and closes the connection, with nothing accepted, written or completed |
| WriteQueue.WriteWorks | src/network/session/TcpConnection.cpp:92-109 | every step of the socket that changes the connection uses up work and loses nothing |
| WriteQueue.SomeWriteRuns | src/network/session/TcpConnection.cpp:92-109 | as long as a payload is queued the socket can take such a step |
| WriteQueue.Drains | src/network/session/TcpConnection.cpp:92-109 | left to the socket, in any order and in parts of any size, an open connection takes at most as many steps as there is work, and cannot stop before all that was accepted is on the wire in order and completed |
| WriteQueue.Drain | src/network/session/TcpConnection.cpp:92-109 | so from every open state the socket alone can empty the queue |
| WriteQueue.ClosedOnce | src/network/session/TcpConnection.cpp:72-90 | a close, however it comes, is final, empties the queue and calls the callback exactly once |
| WriteQueue.NotifiedCount | src/network/session/TcpConnection.cpp:72-90 | the callback has been called iff the connection is closed and had one |
| WriteQueue.StaysClosed | src/network/session/TcpConnection.cpp:24-110 | after a close nothing is queued, accepted, written or called any more |
| WriteQueue.PopsEmptyIff | src/network/session/TcpConnection.cpp:100-109 | in every run an outstanding write that is sent in full meets an empty queue if and only if the connection is closed |
| WriteQueue.SentThenClosed | src/network/session/TcpConnection.cpp:100-109 | a payload sent in full and then a close: the write is outstanding and the queue is empty |
| WriteQueue.TcpConnection.constructor | src/network/session/TcpConnection.hpp:40-49 | a fresh connection |
| WriteQueue.TcpConnection.StartTask | src/network/session/TcpConnection.cpp:9-18 | `Start` as a strand step |
| WriteQueue.TcpConnection.Send | src/network/session/TcpConnection.cpp:24-37 | `Send` as a strand step |
| WriteQueue.TcpConnection.StartWrite | src/network/session/TcpConnection.cpp:92-99 | hands the front payload to the socket, on which no write is outstanding |
| WriteQueue.TcpConnection.OnWriteDone | src/network/session/TcpConnection.cpp:100-109 | the completion handler, which keeps the invariant |
| WriteQueue.TcpConnection.OnWriteFailed | src/network/session/TcpConnection.cpp:101-104 | the failing completion closes |
| WriteQueue.TcpConnection.Close | src/network/session/TcpConnection.cpp:39-44 | `DoClose` on the strand |
| WriteQueue.TcpConnection.CloseNow | src/network/session/TcpConnection.cpp:72-90 | the state after `DoClose` |
| EndToEnd.SendInv | src/network/session/ClientSession.cpp:86-116 | an accepted message adds exactly its frames to what the wire will carry |
| EndToEnd.ReadInv | src/network/session/ClientSession.cpp:62-72 | a peer read keeps the tie between what was read and what was decoded |
| EndToEnd.RunInv | src/network/session/ClientSession.cpp:53-116 | the invariant of sender, connection and peer over every run |
| EndToEnd.Delivered | src/network/codec/mTcpCodec.hpp:41-187 | in every run what the peer has decoded is a beginning of the fragments of the accepted messages, in order and never interleaved, and all of them once an open connection has nothing left to write or read |
| EndToEnd.CanArrive | src/network/session/TcpConnection.cpp:92-109 | from every reachable state with an open connection, steps of the socket and one read alone lead to the peer having decoded every fragment of every accepted message |
| EndToEnd.SendAdds | src/network/session/ClientSession.cpp:86-97 | a send adds, behind all others, the pieces of the message the caller passed under its own or the generated identifier, and nothing for what the encoder refuses or after a close |
| EndToEnd.DecodedWasSent | src/network/session/ClientSession.cpp:86-97 | in every run each message the peer decodes is a piece of a message some caller sent, under the identifier it was sent under |
| EndToEnd.DeliveredToGateway | src/network/session/ClientSession.cpp:53-84 | with a client session as the peer the buffer overflows if and only if a read does not fit; otherwise the gateway gets an in-order, duplicate-free selection of those fragments, a beginning of them when no read is lossy |
| EndToEnd.ReadsFit | src/network/session/ClientSession.cpp:53-72 | in every run all reads of at most 4096 bytes fit the buffer, and the next one meets what `OnSocketRecv` requires |
| SessionProtocol.LocalInv | src/network/session/TcpConnection.cpp:39-90 | every step of a session keeps what ties its maps, connection and calls together, and no step revives it |
| SessionProtocol.RunInv | src/network/session/SessionManager.cpp:94-118 | the invariant over every interleaving |
| SessionProtocol.StepChanges | src/network/session/SessionManager.cpp:24-140 | what a create, a heartbeat, a posted close, a new handler and the taking of a sweep's list change, when each is refused, and that nothing else changes |
| SessionProtocol.SweepCloseChanges | src/network/session/SessionManager.cpp:186-188 | one round of a sweep erases the first session of its list, leaves its call to be finished, and touches no other session |
| SessionProtocol.Sweep | src/network/session/SessionManager.cpp:166-188 | an undisturbed sweep, whatever the order of its list, leaves exactly the sessions heard from within 30 seconds |
| SessionProtocol.TableAgrees | src/network/session/SessionManager.cpp:61-108 | the two maps have the same keys, at most 1000, in every reachable state |
| SessionProtocol.Handshake | src/network/session/SessionManager.cpp:94-118 | callback and handler run at most once each; at rest a session is untouched, or closed, out of both maps, notified once and its handler run exactly once if set |
| SessionProtocol.InternalStepWorks | src/network/session/TcpConnection.cpp:72-90 | the mutual calls terminate: every step of a close uses up work |
| SessionProtocol.SomeStepRuns | src/network/session/TcpConnection.cpp:39-90 | a session that is not at rest can always take a step |
| SessionProtocol.CloseCompletes | src/network/session/SessionManager.cpp:94-118 | once a close has begun, any order of the remaining steps is finite, never stuck, and ends closed and out of both maps |
| SessionProtocol.SameEnd | src/network/session/SessionManager.cpp:54-59 | a close from the connection, from `CloseSession` on the strand and from another thread end in the same state |
| SessionProtocol.NeverReused | src/network/session/SessionManager.cpp:24-26 | an identifier whose session is gone never becomes a key again, however creates are delayed between taking their identifier and inserting (before wrap-around) |
| SessionProtocol.SweepClosesExpired | src/network/session/SessionManager.cpp:166-188 | a session closed by a sweep, interleaved with anything, was in the table and past the timeout in the state of the run in which the sweep took its list |
| SessionTable.WithoutAllRemoves | src/network/session/SessionManager.cpp:186-188 | closing a list of different sessions removes exactly those and runs the handler once for each in that order |
| SessionTable.SweepKeepsFresh | src/network/session/SessionManager.cpp:171-188 | after a sweep the table holds exactly the sessions heard from within the timeout |
| SessionTable.Session.DoClose | src/network/session/TcpConnection.cpp:72-90 | closes, and calls `CloseSession` through a callback that is still set, once; the mutual recursion terminates |
| SessionTable.SessionManager.constructor | src/network/session/SessionManager.cpp:13-17 | an empty table, identifiers from 1 |
| SessionTable.SessionManager.AllocateSessionId | src/network/session/SessionManager.cpp:24-26 | the 32-bit counter, with its wrap-around |
| SessionTable.SessionManager.CreateSession | src/network/session/SessionManager.cpp:28-92 | exactly when a session is added and under which identifier; otherwise, also after an exception at either place, the table is unchanged |
| SessionTable.SessionManager.CloseSession | src/network/session/SessionManager.cpp:94-118 | the table without the session, its connection closed, the handler run once; false iff it was not there |
| SessionTable.SessionManager.CloseUntouched | src/network/session/SessionManager.cpp:94-118 | on a session no close has touched, `CloseSession` is the run of the interleaving model from the lock to the handler |
| SessionTable.Session.DoCloseUntouched | src/network/session/TcpConnection.cpp:72-90 | and `DoClose` is the run that starts at the connection |
| SessionTable.SessionManager.OnSessionHeartbeat | src/network/session/SessionManager.cpp:134-140 | a heartbeat of a session in the table, and of no other, is recorded |
| SessionTable.SessionManager.EnsureHeartbeatSweepStarted | src/network/session/SessionManager.cpp:142-155 | the sweep is started once |
| SessionTable.SessionManager.CollectExpired | src/network/session/SessionManager.cpp:171-184 | the list is exactly the stale sessions, each once |
| SessionTable.SessionManager.CloseNext | src/network/session/SessionManager.cpp:186-188 | one round closes one session and touches no other |
| SessionTable.SessionManager.CloseAll | src/network/session/SessionManager.cpp:186-188 | the loop closes exactly the listed sessions |
| SessionTable.SessionManager.HandleHeartbeatSweep | src/network/session/SessionManager.cpp:166-199 | an aborted sweep does nothing; any other closes exactly the stale sessions and goes on iff a session is left |
| UserSessions.RunInv | src/protocol/Router/UserSessionMap.cpp:7-78 | in every run a session's user is bound to that session |
| UserSessions.StepChanges | src/protocol/Router/UserSessionMap.cpp:7-78 | whom a login, logout or registration binds or unbinds, when it does nothing, and that every other user and session is left as it was |
| UserSessions.LogoutUndoes | src/protocol/Router/UserSessionMap.cpp:7-26 | a logout undoes the login of a free user on a free session |
| UserSessions.ReplyReachesSender | src/protocol/Router/MsgRouter.cpp:41-47 | in every run a session that has a user is the session of that user; `ReplyToSender` below is the same at the router |
| UserSessions.FullIff | src/protocol/Router/UserSessionMap.cpp:7-78 | a step keeps the maps inverse if and only if it takes no session held by another user |
| UserSessions.BindFullIff | src/protocol/Router/UserSessionMap.cpp:7-15 | the same for `Bind` alone |
| UserSessions.RunFull | src/protocol/Router/UserSessionMap.cpp:63-78 | the maps are inverses on every run without such a takeover |
| UserSessions.SizesEqualIffFull | src/protocol/Router/UserSessionMap.cpp:58-61 | never more sessions than users; equally many exactly when the maps are inverses |
| UserSessions.StaleIff | src/protocol/Router/UserSessionMap.cpp:7-78 | in every run the users whose session does not know them are exactly those who lost it to an event about another user and have not been bound or unbound since |
| UserSessions.Surplus | src/protocol/Router/UserSessionMap.cpp:58-61 | and their number is the surplus of users over sessions |
| UserSessions.Takeover | src/protocol/Router/UserSessionMap.cpp:7-26 | two logins on one session leave the maps not inverse; the first user's logout then leaves the second bound to a session without a user |
| UserSessions.UserSessionMap.constructor | src/protocol/Router/UserSessionMap.cpp:1-5 | two empty maps |
| UserSessions.UserSessionMap.BindUser | src/protocol/Router/UserSessionMap.cpp:7-15 | the new state of both maps |
| UserSessions.UserSessionMap.UnbindUser | src/protocol/Router/UserSessionMap.cpp:17-26 | the new state, and whether the user was bound |
| UserSessions.UserSessionMap.UnbindSession | src/protocol/Router/UserSessionMap.cpp:28-38 | the new state, and whether the session was bound |
| UserSessions.UserSessionMap.GetSessionId | src/protocol/Router/UserSessionMap.cpp:40-47 | the session of a user, or 0 |
| UserSessions.UserSessionMap.GetUserId | src/protocol/Router/UserSessionMap.cpp:49-56 | the user of a session, or 0 |
| UserSessions.UserSessionMap.OnUserLogin | src/protocol/Router/UserSessionMap.cpp:63-68 | ignores failed logins and zero identifiers |
| UserSessions.UserSessionMap.OnUserLogout | src/protocol/Router/UserSessionMap.cpp:70-78 | unbinds by user, or by session if there is no user |
| Router.MsgRouter.RegisterUserSession | src/protocol/Router/MsgRouter.cpp:15-21 | binds the user, unless there is no session |
| Router.MsgRouter.RegisterMsgHandler | src/protocol/Router/MsgRouter.cpp:90-93 | replaces the handler of the type |
| Router.MsgRouter.UnregisterMsgHandler | src/protocol/Router/MsgRouter.cpp:86-88 | whether there was one |
| Router.MsgRouter.SendMessageToSession | src/protocol/Router/MsgRouter.cpp:49-59 | the message goes to the connection of that session, exactly when there is one, and is stamped with an identifier if there is a session |
| Router.MsgRouter.SendMessageToUser | src/protocol/Router/MsgRouter.cpp:41-47 | to the session the user is bound to, and to no other |
| Router.MsgRouter.SendNext | src/protocol/Router/MsgRouter.cpp:41-47 | the same over all connections: the user's gets the message, every other stays as it is |
| Router.MsgRouter.SendToUsers | src/business/GameRoom/GameRoom.cpp:170-174 | a message sent to several users in turn is queued on each connection once for every user it belongs to, or on none if it cannot be encoded |
| Router.QueuedMeans | src/protocol/Router/MsgRouter.cpp:41-59 | what these sends do to an open connection: the bytes are accepted once for every send, behind all others; a closed one stays as it is |
| Router.CountPlaces | src/business/GameRoom/GameRoom.cpp:170-174 | how often a connection is sent to is the number of users it belongs to |
| Router.MsgRouter.OnMsgReceive | src/protocol/Router/MsgRouter.cpp:70-84 | a live handler gets the message with the sender looked up from its session; a dead one is forgotten |
| Router.MsgRouter.ReplyToSender | src/protocol/Router/MsgRouter.cpp:41-84 | receiving a message and answering its sender queues the reply on the connection the message came in on, exactly when that is known and the reply can be encoded |
| Groups.WithoutDistinct | src/business/Group/Group.hpp:78-85 | removal takes the member away and keeps the rest in order |
| Groups.OperationsInv | src/business/Group/Group.hpp:51-85 | every operation keeps the members distinct and within the capacity; adding then removing restores the group |
| Groups.OperationsChange | src/business/Group/Group.hpp:51-85 | when each operation is refused and how, and what it changes: a new member goes last, a removed one leaves the others in order, a refusal changes nothing |
| Groups.Group.constructor | src/business/Group/Group.hpp:39-42 | the capacity and the initial members |
| Groups.Group.FindMember | src/business/Group/Group.hpp:87-114 | the first member with the key |
| Groups.Group.SetCapacity | src/business/Group/Group.hpp:51-57 | refused iff fewer than the members |
| Groups.Group.AddMember | src/business/Group/Group.hpp:67-76 | the new state and result |
| Groups.Group.RemoveMember | src/business/Group/Group.hpp:78-85 | the new state and result |
| Groups.Group.ClearMembers | src/business/Group/Group.hpp:103 | no members, capacity kept |
| Rooms.StepInv | src/business/GameRoom/GameRoom.cpp:53-182 | every operation keeps the room invariant |
| Rooms.RunInv | src/business/GameRoom/GameRoom.cpp:53-182 | in every reachable state, also after a start that threw, ticking iff running, members distinct and within the capacity |
| Rooms.PlayersChange | src/business/GameRoom/GameRoom.cpp:53-148 | who may join, leave and be kicked, with which result otherwise, what becomes of members and count, and that nothing else changes |
| Rooms.RoomChanges | src/business/GameRoom/GameRoom.cpp:87-182 | the owner's operations are refused to everybody else; when each succeeds, what it sets, and that nothing else changes |
| Rooms.Undone | src/business/GameRoom/GameRoom.cpp:53-182 | leaving undoes joining, and the end of a game undoes its start |
| Rooms.MembersDuringGame | src/business/GameRoom/GameRoom.cpp:53-74 | while a game runs the member list is an in-order part of the list at its start |
| Rooms.JoinOrder | src/business/GameRoom/GameRoom.cpp:53-74 | members are listed in the order in which they last joined |
| Rooms.PlayerCount | src/business/GameRoom/GameRoom.cpp:137-166 | the stored count exceeds the members by exactly those a kick or a dissolve took away (modulo 64 bits) |
| Rooms.KickedStillCounted | src/business/GameRoom/GameRoom.cpp:137-148 | after two joins and a kick the room has one member and counts two |
| Rooms.GameRoom.constructor | src/business/GameRoom/GameRoom.hpp:50-56 | an empty room with the owner, capacity, state and player count of the given room info |
| Rooms.GameRoom.JoinRoom | src/business/GameRoom/GameRoom.cpp:53-66 | result and new state; the player's current room is set even if the group refuses |
| Rooms.GameRoom.LeaveRoom | src/business/GameRoom/GameRoom.cpp:68-74 | result and new state |
| Rooms.GameRoom.KickPlayer | src/business/GameRoom/GameRoom.cpp:137-148 | result and new state; the count stays |
| Rooms.GameRoom.SetCapacity | src/business/GameRoom/GameRoom.cpp:150-155 | result and new state |
| Rooms.GameRoom.MatchPlayers | src/business/GameRoom/GameRoom.cpp:39-51 | the members' identifiers in order |
| Rooms.GameRoom.Start | src/business/GameRoom/GameRoom.cpp:87-108 | result and new state, and what the handler holds after a start and after one that threw |
| Rooms.GameRoom.DissolveRoom | src/business/GameRoom/GameRoom.cpp:157-168 | result and new state |
| Rooms.GameRoom.OnGameEnd | src/business/GameRoom/GameRoom.cpp:175-194 | back to the lobby and not ticking; the message it broadcasts has protocol type 0 and the winner as payload |
| RoomDirectory.RunInv | src/business/GameRoom/GameRoomManager.cpp:67-95 | every code entry names a live room bearing the code, however creates and dissolves interleave and even under collisions |
| RoomDirectory.StepChanges | src/business/GameRoom/GameRoomManager.cpp:67-192 | what each step of a create and a dissolve by the owner change, that a dissolve by anybody else changes nothing, and that other rooms and codes are never touched |
| RoomDirectory.DissolveUndoes | src/business/GameRoom/GameRoomManager.cpp:91-192 | a dissolve undoes the publishing of a room with a new code |
| RoomDirectory.CreatedIsSteps | src/business/GameRoom/GameRoomManager.cpp:69-93 | the create of the object is the two steps of the machine, undisturbed |
| RoomDirectory.ReachableIff | src/business/GameRoom/GameRoomManager.cpp:91-94 | a step leaves every live room found by its code if and only if it publishes none whose code is in use |
| RoomDirectory.Collision | src/business/GameRoom/GameRoomManager.cpp:91-94 | two rooms published with one code: both are live and the code finds only the first |
| RoomDirectory.RunReachable | src/business/GameRoom/GameRoomManager.cpp:67-95 | codes and live rooms correspond one to one on runs without such a step |
| RoomDirectory.DistinctCodes | src/business/GameRoom/GameRoomManager.cpp:67-95 | distinct generated codes are enough |
| RoomDirectory.CollisionLosesCode | src/business/GameRoom/GameRoomManager.cpp:178-192 | after a collision dissolving either room leaves the other without a code |
| RoomDirectory.GameRoomManager.constructor | src/business/GameRoom/GameRoomManager.hpp:24-25 | no rooms, identifiers from 1 |
| RoomDirectory.GameRoomManager.RoomCodeToId | src/business/GameRoom/GameRoomManager.cpp:40-47 | the room a code names, if any |
| RoomDirectory.GameRoomManager.PublishRoom | src/business/GameRoom/GameRoomManager.cpp:91-93 | a code that is in use keeps its room |
| RoomDirectory.GameRoomManager.CreateRoom | src/business/GameRoom/GameRoomManager.cpp:67-95 | each result with its condition, the new directory, the owner's current room, and the room its owner has joined; the identifier is used up in any case |
| RoomDirectory.GameRoomManager.JoinRoom | src/business/GameRoom/GameRoomManager.cpp:97-112 | the refusals of the directory, otherwise the room's own result, and when the player's current room changes |
| RoomDirectory.GameRoomManager.DissolveRoom | src/business/GameRoom/GameRoomManager.cpp:178-192 | result, the directory without room and code, and the emptied room |
| RoomDirectory.GameRoomManager.RoomBroadCast | src/business/GameRoom/GameRoomManager.cpp:49-56 | whether the room is known, and its members in order, to whom `Announcement.BroadcastToRoom` sends |
| Announcement.BroadcastToRoom | src/business/GameRoom/GameRoomManager.cpp:49-56 | which connections a message to a room is queued on and how often, what each send returns, and that no other connection changes |
| Announcement.EndRefused | src/business/GameRoom/GameRoom.cpp:183-193 | whatever the winner, the announcement of the end has no encoding |
| Rooms.EndOfGameSays | src/business/GameRoom/GameRoom.cpp:183-192 | the announcement has types 7 and 11 and the winner, least significant byte first |
| Announcement.AnnounceEnd | src/business/GameRoom/GameRoom.cpp:175-194 | when a game ends the room is back in its lobby, every send of the announcement fails, and no connection changes |
| GameCommands.NoNewOwner | src/business/GameLogic/GameCmdHandler.cpp:79-161 | a command hands tiles only to a player who owns one |
| GameCommands.GoneForGood | src/business/GameLogic/GameCmdHandler.cpp:79-161 | a player (not 0) who owns no tile never owns one again, and each later command of that player throws |
| GameCommands.CountersStep | src/business/GameLogic/GameCmdHandler.cpp:125-148 | a command lowers the number of tiles that can counter by one exactly when it is a losing attack on one of them |
| GameCommands.CountersConserved | src/business/GameLogic/GameCmdHandler.cpp:125-148 | attackers destroyed by counter-attacks and tiles that can still counter add up, over any run, to the tiles that could at the start |
| GameCommands.StepNoFailure | src/business/GameLogic/GameCmdHandler.cpp:188-206 | no command makes a player fail |
| GameCommands.NobodyWins | src/business/GameLogic/GameCmdHandler.cpp:188-211 | over every run of a started game no player fails, so the end is only ever announced with winner 0 |
| GameCommands.EndStep | src/business/GameLogic/GameCmdHandler.cpp:101-152 | a command announces the end exactly when it is an attack that takes a base or costs one in a counter-attack |
| GameCommands.EndsAnnounced | src/business/GameLogic/GameCmdHandler.cpp:188-211 | over every run the announcements are as many as such commands |
| GameCommands.BasesUntilTheEnd | src/business/GameLogic/GameCmdHandler.cpp:101-152 | until the first announcement every base has the owner it started with |
| GameCommands.WonAttackOutcome | src/business/GameLogic/GameCmdHandler.cpp:106-117 | a won attack takes the tile iff its value was not 2, the subtraction wraps around iff it was below 2, one troop stays behind, and no other tile changes |
| GameCommands.LostAttackOutcome | src/business/GameLogic/GameCmdHandler.cpp:125-147 | a lost attack destroys the attacker iff the tile had not countered, the defender iff it had and the values were equal, and neither otherwise; no other tile changes |
| GameCommands.WonAttackPays | src/business/GameLogic/GameCmdHandler.cpp:106-124 | what a won attack earns the attacker and costs the defender in resources and bases, with wrap-around, and that no other record changes |
| GameCommands.LostAttackPays | src/business/GameLogic/GameCmdHandler.cpp:125-150 | the same for a lost attack, by who is destroyed |
| GameCommands.AllowedIff | src/business/GameLogic/GameCmdHandler.cpp:226-252 | exactly which commands are allowed, and which name a tile that does not exist |
| GameCommands.MoveOutcome | src/business/GameLogic/GameCmdHandler.cpp:84-100 | a move leaves one troop behind, changes nothing on the target, and pays the player a resource, and a base on a base |
| GameCommands.GrowOutcome | src/business/GameLogic/GameCmdHandler.cpp:153-157 | growth changes the value of one tile, by any amount and with wrap-around, and nothing else |
| GameCommands.Spent | src/business/GameLogic/GameCmdHandler.cpp:84-124 | after a move or a won attack no move or attack from the same tile is allowed until it grows |
| GameCommands.SeatOf | src/business/GameLogic/GameCmdHandler.cpp:47-57 | every player of a match has the seat of its place and starts with nothing |
| GameCommands.CheckMeans | src/business/GameLogic/GameCmdHandler.cpp:188-211 | what the end check has found when it clears tiles and when it announces: which tiles, and how many players have failed |
| GameCommands.GameCmdHandler.constructor | src/business/GameLogic/GameCmdHandler.cpp:7-11 | no tiles, no players, not ticking, an interval of 50 |
| GameCommands.GameCmdHandler.StartTicking | src/business/GameLogic/GameCmdHandler.cpp:13-24 | ticking at the interval with a tick scheduled, unless it was ticking |
| GameCommands.GameCmdHandler.StopTicking | src/business/GameLogic/GameCmdHandler.cpp:26-31 | not ticking, no tick scheduled |
| GameCommands.GameCmdHandler.ScheduleNextTick | src/business/GameLogic/GameCmdHandler.cpp:173-178 | a tick is scheduled iff the handler is ticking |
| GameCommands.GameCmdHandler.OnTimer | src/business/GameLogic/GameCmdHandler.cpp:173-186 | a tick adds the interval and schedules the next one, as long as the handler is ticking and the timer did not fail |
| GameCommands.GameCmdHandler.InitGameState | src/business/GameLogic/GameCmdHandler.cpp:65-70 | no players |
| GameCommands.GameCmdHandler.StartGame | src/business/GameLogic/GameCmdHandler.cpp:33-58 | a copy of the map, fresh seats, the current player and tick 0, or nothing but the map name changed when there is no map |
| GameCommands.GameCmdHandler.Validate | src/business/GameLogic/GameCmdHandler.cpp:226-252 | refusal, missing tile, or permission, as `Check` defines them |
| GameCommands.GameCmdHandler.ClearTilesOfPlayer | src/business/GameLogic/GameCmdHandler.cpp:213-224 | clears exactly the player's tiles |
| GameCommands.GameCmdHandler.GameEndCheck | src/business/GameLogic/GameCmdHandler.cpp:188-211 | no player record changes; tiles of failed players without a base are cleared; when the end is announced and with which winner |
| GameCommands.GameCmdHandler.ProcessMove | src/business/GameLogic/GameCmdHandler.cpp:84-100 | the state after a move |
| GameCommands.GameCmdHandler.ProcessWin | src/business/GameLogic/GameCmdHandler.cpp:101-124 | the state after a won attack |
| GameCommands.GameCmdHandler.ProcessLoss | src/business/GameLogic/GameCmdHandler.cpp:125-150 | the state after a lost attack |
| GameCommands.GameCmdHandler.ProcessGrow | src/business/GameLogic/GameCmdHandler.cpp:153-157 | the state after growth |
| GameCommands.GameCmdHandler.ProcessCommand | src/business/GameLogic/GameCmdHandler.cpp:79-161 | an allowed command changes the state as `Step` says, any other throws and changes nothing |

## Left out

- Asio sockets, the acceptor, timers, threads and `main.cpp`: only their completions appear, as events.
- The CRC instructions as machine code: word steps are defined as one-bit reflected divisions.
- Codec.DecodeSync: a data frame with `payload_len` below 2 at the end of the input makes lines 174-175 of
  `mTcpCodec.hpp` read past it; the method requires that this does not happen (`ReadsInside`), which
  `Stream.TypedReads` and `Stream.TypedStream` establish and of which `Stream.ReadsOutsideIff` is the exact condition.
- Session.ClientSession.OnSocketRecv: a full buffer makes line 62 of `ClientSession.cpp` write past it; the method
  requires room in the buffer, which `EndToEnd.ReadsFit` establishes in every run of an encoding sender and of which
  `Session.Delivery` gives the exact condition. What is overwritten behind the buffer is not modelled.
- WriteQueue.TcpConnection.OnWriteDone: a write that completes without an error after `DoClose` would pop an empty
  queue (`TcpConnection.cpp:105`); runs in which a completion after the close carries no error are excluded, and
  `WriteQueue.PopsEmptyIff` says that no other completion pops an empty queue.
- RoundTrip.EncodeDecode: the protocol type, because the decoder does not set it on data frames.
- SessionProtocol.NeverReused: runs end where the 32-bit identifiers would wrap around; the object in
  `SessionManager.dfy` does wrap around, and so can refuse or reuse an identifier.
- SessionTable.Session.DoClose: runs on one thread; the close task that `CloseSession` posts from another thread is in
  `SessionProtocol`. Stored here is one object for a session and its connection; the write queue is that of
  `TcpConnection.dfy`.
- Operations of one room are applied one after another; the server does not lock a room.
- Rooms.GameRoom.OnGameEnd: the broadcast itself, which is in `Announcement.AnnounceEnd`.
- RoomDirectory.GameRoomManager.RoomBroadCast: the sends themselves, which are in `Announcement.BroadcastToRoom`.
- Rooms.RunInv: runs start in the lobby with a player count of 0, as the only creator of rooms fills them in.
- RoomDirectory.RunInv: runs end where room identifiers would wrap around; codes are arbitrary inputs in place of the
  random generator.
- Ready flags, room names, passwords, map selection, listings and the other forwarding operations of the room
  directory: each is a field or a lookup.
- JSON translation and map files: a start gets the loaded map, or none.
- `ReqHandler`, `RoomReqHandler`, `UserStateManager`, `GamePlayerManager`: they parse requests, assemble responses or
  hold a map.
- Resources, base counts and scores of a game have no law over whole runs: the rules are placeholders, and what each
  command pays is in `GameCommands.MoveOutcome`, `GameCommands.WonAttackPays` and `GameCommands.LostAttackPays`.
- Logging and `ToHex`.
