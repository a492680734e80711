# A verified model of the server's protocol code

This project models the parts of the game server that have to be right for every input and every
interleaving, and proves that they are - or, where the code does not keep what its comments or callers
expect, states the exact condition under which it does.

| file | what it models |
|---|---|
| `Bytes.dfy` | octets, concatenation, little-endian fields, `^` and `\|` on unsigned numbers |
| `Sha1Spec.dfy` | FIPS PUB 180-1, sections 4 to 7, as a one-shot definition |
| `Sha1Examples.dfy`, `HandshakeExample.dfy` | the digest of "abc" (Appendix A) and the sample handshake of section 1.3 of RFC 6455, round by round |
| `Sha1.dfy` | the streaming `SHA1` class: block buffer, split length counter, flags, 80-step loop |
| `Base64.dfy` | `base64_encode` and `base64_decode` against section 4 of RFC 4648 |
| `Handshake.dfy` | `answerHandshake` (section 4.2.2 of RFC 6455), the byte-swap loop included |
| `Frame.dfy`, `FrameLaws.dfy` | `makeFrameString`, `getFrame`, `need_head_len`, `need_body_len` (sections 5.2 and 5.3 of RFC 6455) |
| `FrameExamples.dfy` | first octets, printed lengths and the "Hello" example of section 5.7 of RFC 6455 |
| `Message.dfy` | the six-octet message head, `cpp_send_to_fd`, the client's sender |
| `TcpRead.dfy` | `TcpConnection::do_read`: messages rebuilt from partial reads |
| `WsRead.dfy` | `WsConnection::do_read` after the handshake: unmasking, delivering and compacting in one array |
| `WsFront.dfy`, `WsReassembly.dfy` | what it makes of one frame at the front of the array, whole or cut short, and of streams cut into any reads |
| `WriteQueue.dfy` | `do_write_cache`, `do_write` and the completion callbacks as steps of any number of threads |
| `ScriptQueue.dfy` | `AddMsg` and `LuaLoop`: the hand-over of script messages |
| `Database.dfy` | `GetConn`, `BackConn` and `Call`, alone and as steps of any number of jobs |
| `Varint.dfy`, `ZigZag.dfy` | the Protocol Buffers integer codes: `pack_varint`, `size_varint`, `unpack_varint`, `zig_zag_*` |
| `Explode.dfy` | `WebSocket::explode` |
| `EndToEnd.dfy` | a list of messages from one script to the other, through all of the above |

The classes, arrays and loops of the source are classes, arrays and loops here; each is proved against a
specification function or definition, and the main results are lemmas about those. The two multi-threaded
parts (write queue, connection pool with jobs) and the script queue are step systems: a run is any list of
enabled steps of any threads, and the results hold after every run.

Machine integers are mathematical integers with the wrap-around written out: SHA-1 words are 32-bit
vectors, the length counter is reduced modulo 2^32 where the code masks it, the 64-bit frame length is
narrowed to a signed 32-bit number, the TCP request is reduced modulo 2^16, varints work modulo 2^64.

## Where the code and its documentation disagree

The model follows the code.

- `explode` (`src/net_manager.cpp:77-104`): the comment on the length test says the last piece is kept,
  but the `int length` makes it -1 and the default mode drops it. `Explode.LastRowLost` gives an input,
  `Explode.AllKeptIff` the exact condition. `parseHandshake` therefore never sees the last header row.
- `getFrame` tests the length before counting the masking key (`src/net_manager.cpp:266`). A masked frame
  with one to four octets missing is accepted: `FrameLaws.KeyNotCounted` gives an input,
  `FrameLaws.ParseCut` the exact condition.
- `getFrame` reads all the octets of an extended length before it looks how many have arrived
  (`src/net_manager.cpp:252-268`). A frame with a 64-bit length, masked or not, cut two to nine octets in is judged by
  what the array held before, and a length that reads as negative makes it copy a reversed range:
  `FrameLaws.StaleLength` gives the octets for every such frame, `WsFront.LongCarrier` and
  `WsFront.StaleHeaderFaults` an input for the reader. `FrameLaws.CutWaitsIff` is the exact condition on the array,
  `FrameLaws.HeaderCutIff` the exact condition on the cut when nothing is known of the array: never two to six octets
  in, and later only while the largest length the octets can spell stays within an int.
- What these two do to `WsConnection::do_read`: `WsFront.CutOutcome` says exactly when a frame cut short is waited
  for, and that otherwise the handler goes outside the received octets or waits with some of them changed;
  `WsReassembly.GoesWellIff` says exactly when a whole run goes well, for every stream of messages. When every masked
  message has at least two body octets, a run goes well or faults and nothing else (`WsReassembly.RunWaitsIff`), and
  without 64-bit lengths where the reads end decides which (`WsReassembly.RunWaitsIffGood`). With a shorter body the
  length field may not have arrived: `WsFront.LateOutcome` says what the turns of the loop do to such a frame,
  `WsFront.LeftUnmasked` gives the inputs that leave octets unmasked, and
  `WsFront.MaskedAgain` says what the next read makes of them.
- `WsConnection::do_read` handles ten frames a read (`EndToEnd.TenAtOnce`); complete frames beyond that wait for the
  next read, even when no more octets are coming. `EndToEnd.ElevenAtOnce` gives an input, `EndToEnd.WsLastRead` and
  `WsReassembly.LastReadDecides` the exact condition.
- The `break` for incomplete frames (`src/net_manager.cpp:668-674`) stands in the branch for text and binary
  frames, where it is never reached: the loop always takes all its turns. An incomplete frame is not changed
  by the extra turns (`WsRead.IncompleteWaits`).
- A ping, a pong, a fragment, or a text or binary frame that is no message is never taken out of the array
  (`src/net_manager.cpp:637-675`): every turn parses it again, masking its payload once more, and nothing behind it is
  ever delivered. `WsReassembly.BlockedForEver` states it for every such frame and all reads after it.
- An empty text in the outgoing queue sets `is_writing` and starts no write (`src/net_manager.cpp:529-537`):
  `WriteQueue.EmptyMessageSticks` is a run that leaves a message behind, `WriteQueue.QuietAndQueued` the
  exact condition. `cpp_send_to_fd` never produces an empty text.
- The PING and PONG codes 0x19 and 0x1A set a reserved bit and not FIN, and the CLOSE code 0x08 leaves FIN clear
  too, which section 5.5 of RFC 6455 forbids for control frames; `getFrame` reads the opcode only, so all three still
  read back.
- `cpp_send_to_fd` writes the length into the magic field, and no reader looks at that field.
- The decoders' test for a failed `size_varint` compares an unsigned number with 0 and cannot fire. A code cut
  off by the end of the Lua string is completed by the terminating NUL (`Varint.TruncatedCode`).

## Model

| member | source | states |
|---|---|---|
| Sha1Spec.ZeroCountIsLeast | src/sha1.cpp:479-516 | the padding definition uses the fewest zero octets that complete a block |
| Sha1Spec.LengthReadsBack | src/sha1.cpp:506-513 | the eight octets of the length, read most significant first, are the 64-bit bit count |
| Sha1Examples.Abc | src/sha1.cpp:380-516 | the digest of "abc" is the one Appendix A of FIPS PUB 180-1 gives; this fixes the initial words, the constants, the round functions, the rotations and the padding octets |
| Sha1Examples.SampleDigest | src/sha1.cpp:380-516 | the digest of the sample key and the identifier, a message of two padded blocks, is the one section 1.3 of RFC 6455 gives |
| Sha1.CircularShiftRotates | src/sha1.cpp:536-538 | shift-and-or is a 32-bit rotation for every amount the algorithm uses |
| Sha1.LoopBodyIsStep | src/sha1.cpp:408-447 | each of the four loop bodies is the standard's step for its range of t |
| Sha1.SHA1.ExpandBlock | src/sha1.cpp:391-400 | the array W is the standard's word schedule of the block |
| Sha1.SHA1.RunRounds | src/sha1.cpp:408-447 | the four in-place loops compute the recursive 80-step definition |
| Sha1.SHA1.ProcessMessageBlock | src/sha1.cpp:380-456 | the hash state becomes the standard's compression of the block under the old state; the index returns to 0 |
| Sha1.SHA1.constructor | src/sha1.cpp:57-57 | a new object is valid, has accepted nothing and is neither computed nor corrupted |
| Sha1.SHA1.Reset | src/sha1.cpp:94-107 | from any state, the object is as new |
| Sha1.SHA1.CountOctet | src/sha1.cpp:177-185 | the two halves count bits exactly, and the digest is corrupted exactly when the 64-bit count comes round to zero |
| Sha1.SHA1.Input | src/sha1.cpp:164-193 | keeps the invariant (what was compressed is hashed, the rest waits in the block, the index is below 64, the counter is exact); corrupted exactly by input after a result or at 2^61 octets |
| Sha1.SHA1.PadToLength | src/sha1.cpp:479-501 | through both branches of the index test, compressed blocks and block buffer hold message, 0x80 and the fewest zeros |
| Sha1.SHA1.StoreLength | src/sha1.cpp:506-513 | the last eight octets of the block are the big-endian 64-bit bit count, the others unchanged |
| Sha1.SHA1.PadMessage | src/sha1.cpp:479-516 | the blocks compressed over the whole run, concatenated, are the padded message, and the state is its digest |
| Sha1.SHA1.Result | src/sha1.cpp:127-144 | returns the FIPS PUB 180-1 digest of all octets accepted, again when asked again; false exactly when corrupted |
| Sha1.HashInPieces | src/sha1.cpp:127-193 | for every way of cutting a message into Input calls: the digest of the concatenation, and success exactly below 2^61 octets |
| Base64.Base64Encode | src/sha1.cpp:548-587 | the loops produce the RFC 4648 encoding by 24-bit groups, padded tails included |
| Base64.Base64Decode | src/sha1.cpp:589-633 | the loops decode the characters before the first one outside the alphabet, looked-up zeros in the tail included |
| Base64.DecodeEncode | src/sha1.cpp:548-633 | decoding the encoding gives back every byte string |
| Base64.Alphabet | src/sha1.cpp:540-543 | character i is the one in place i of the alphabet written out as in Table 1 of RFC 4648 |
| Base64.AlphabetOnly | src/sha1.cpp:545-547 | a character is accepted exactly when it is one of those 64 |
| Base64.TestVectors | src/sha1.cpp:548-587 | "f", "fo" and "foo" encode as in section 10 of RFC 4648 |
| Base64.EncodedPadding | src/sha1.cpp:571-587 | the encoding has 4 * ceil(n / 3) characters, of which exactly the padding lies outside the alphabet |
| Base64.OctetsOfPartial | src/sha1.cpp:617-630 | what the decoder computes for a short last group does not depend on the values it finds for the missing characters |
| Handshake.LittleToBigEndian | src/net_manager.cpp:124-135 | the swap loop turns the little-endian image of the hash words into the big-endian digest |
| Handshake.BigEndianImageReadsBack | src/net_manager.cpp:124-135 | the big-endian image, read as the standard reads a block, is the word |
| Handshake.Accept | src/net_manager.cpp:112-141 | computes Base64 of the big-endian digest of key and identifier |
| Handshake.WebSocket.AnswerHandshake | src/net_manager.cpp:106-150 | the whole response; the accept header is there exactly when the request carried a key |
| Handshake.AcceptKeyShape | src/net_manager.cpp:106-150 | the accept value has 28 characters, ends in exactly one '=', and decodes to the SHA-1 digest of key and identifier |
| HandshakeExample.SampleAccept | src/net_manager.cpp:106-150 | the accept value of the sample key of section 1.3 of RFC 6455 is s3pPLMBiTxaQ9kYGzzhZRbK+xOo= |
| Frame.TypeOfCode | src/net_manager.cpp:296-308 | for all seven wire types, the code printed is read back as the type |
| FrameExamples.ControlIgnoresFin | src/net_manager.cpp:296-308 | for opcodes 8 to 15 the type depends on the opcode only |
| FrameExamples.ReservedBitsIgnored | src/net_manager.cpp:296-308 | the three reserved bits never change the type |
| FrameExamples.ContinuationIsText | src/net_manager.cpp:296-299 | a continuation frame is read as a text frame with the same FIN |
| FrameExamples.UnknownOpcodes | src/net_manager.cpp:296-308 | ERROR_FRAME comes from opcodes 3 to 7 and 11 to 15, and from no others |
| FrameExamples.StandardOctets | src/net_manager.cpp:296-308 | the first octets RFC 6455 prescribes for each type are read as that type |
| FrameExamples.ControlCodes | src/net_manager.cpp:296-308 | the codes printed, by value, and that the non-standard control codes read as the standard ones do |
| FrameExamples.HelloRead | src/net_manager.cpp:231-293 | the masked "Hello" of section 5.7 of RFC 6455, with any first octet, is unmasked to Hello |
| FrameExamples.LengthOctets | src/net_manager.cpp:158-185 | the printed length as octets: alone, or 126 and two, or 127, four zeros and four, most significant first |
| Frame.MinimalLengthIsLeast | src/net_manager.cpp:158-185 | the printed length field declares the payload length and no field declaring it is shorter (section 5.2 of RFC 6455) |
| Frame.MakeFrameString | src/net_manager.cpp:152-188 | appends the unmasked frame with the shortest length field, and returns the payload length |
| Frame.GetFrame | src/net_manager.cpp:190-309 | computes the parse of the buffer; an incomplete answer changes nothing, a complete one only the payload octets |
| Frame.Unmask | src/net_manager.cpp:270-280 | only the payload octets change, each combined with its octet of the key (section 5.3 of RFC 6455) |
| Frame.MaskTwice | src/net_manager.cpp:276-279 | masking twice with one key is the identity |
| Bytes.XorBit | src/net_manager.cpp:276-279 | the combination of an octet with its key octet is the bit-by-bit exclusive or |
| FrameLaws.HeaderFields | src/net_manager.cpp:231-263 | the code's reading of a header is the length, mask bit and payload position RFC 6455 gives it, in all three forms |
| FrameLaws.ParseWhole | src/net_manager.cpp:190-309 | a whole frame, masked or not, with anything behind it gives its type and original payload |
| FrameLaws.RoundTrip | src/net_manager.cpp:152-309 | getFrame on a printed frame followed by anything gives type and payload back, with out_pos plus size the frame's length |
| FrameLaws.DecodeConcatenation | src/net_manager.cpp:190-309 | concatenated frames decode to their list |
| FrameLaws.ParseTwice | src/net_manager.cpp:270-293 | a second getFrame on the buffer finds the same frame and restores the octets |
| FrameLaws.ParseCut | src/net_manager.cpp:266-268 | a frame cut short is taken for whole exactly when it is masked and at most four octets are missing |
| FrameLaws.KeyNotCounted | src/net_manager.cpp:266-274 | an eight-octet masked frame of which four octets have arrived is accepted while need_body_len still asks for four |
| FrameLaws.CutWaitsIff | src/net_manager.cpp:231-268 | any frame cut short is waited for, with nothing outside the buffer touched, exactly when a cut 64-bit header reads as a length that is large enough, or the header is there and the frame is unmasked or more than four octets are missing |
| FrameLaws.StaleLength | src/net_manager.cpp:256-268 | for every frame with a 64-bit length and two to six octets received there are left-over octets that take getFrame outside the buffer |
| FrameLaws.FromSevenOn | src/net_manager.cpp:256-268 | from seven octets on the length read is never negative and at most the largest one the received octets allow |
| FrameLaws.HeaderCutIff | src/net_manager.cpp:256-268 | a cut inside a 64-bit header is waited for whatever the array holds exactly from seven octets on, while that largest length stays within an int |
| FrameLaws.GuardAgainstNeedBody | src/net_manager.cpp:266-268 | with a readable header, getFrame accepts exactly when need_body_len is at most 0, or at most 4 when masked |
| FrameLaws.NeedHeadIs | src/net_manager.cpp:312-328 | need_head_len asks for exactly what is missing of two octets, then of the whole header without the key |
| FrameLaws.NeedBodyIs | src/net_manager.cpp:330-356 | once the header is there need_body_len asks for exactly what is missing of the frame, key included |
| FrameLaws.TwoPhaseRead | src/net_manager.cpp:312-356 | reading need_head_len until it is 0 and then need_body_len ends with exactly one whole frame, which getFrame accepts whole |
| Message.HeadFields | src/net_manager.cpp:459-481 | as soon as a head is there it says its message's length and action |
| Message.Layout | src/script_manager.cpp:89-98 | a packet is three little-endian 16-bit fields (magic, length with the head, action) and the body |
| Message.LayOut | src/script_manager.cpp:89-98 | the vector written by index is the message's head and body |
| Message.SendInTens | tcp_client.cpp:112-130 | the sends concatenate to one message: a head of six octets, then pieces of exactly ten, the last of one to ten |
| TcpRead.TcpConnection.constructor | src/net_manager.cpp:422-423 | a new reader holds and has posted nothing |
| TcpRead.TcpConnection.NeedReadLen | src/net_manager.cpp:433-445 | the length asked for, in 16-bit arithmetic |
| TcpRead.TcpConnection.OnRead | src/net_manager.cpp:451-485 | the completion handler's new state and what it posts, as a step on values |
| TcpRead.RequestInside | src/net_manager.cpp:433-450 | within a message every request is positive, does not cross its end and stays in the array |
| TcpRead.RequestExact | src/net_manager.cpp:433-445 | a request asks for exactly what is missing of the six-octet head, or of the message |
| TcpRead.RequestInArrayIff | src/net_manager.cpp:440-450 | after a head, the request is positive and inside the array exactly for lengths 7 to 8192 |
| TcpRead.Reassembly | src/net_manager.cpp:430-493 | over any run of partial reads: exactly the whole messages received are posted, in order, and the rest is held |
| TcpRead.NextRequest | src/net_manager.cpp:433-450 | at any point of any run the next request is positive, does not cross the end of the message it is in, and stays inside the array |
| TcpRead.ReassemblyOfAll | src/net_manager.cpp:430-493 | when the whole stream has been read, all messages have been posted and nothing is held |
| WsRead.WsConnection.constructor | src/net_manager.cpp:555-560 | a new reader holds and has posted nothing |
| WsRead.WsConnection.OnRead | src/net_manager.cpp:616-680 | the completion handler's new buffer, length, posts and whether it stopped |
| WsRead.WsConnection.Turn | src/net_manager.cpp:628-675 | one turn of the loop, of which there are ten |
| WsRead.WsConnection.CopyDown | src/net_manager.cpp:658-661 | the in-place copy moves the rest of the octets to the front and changes no others |
| WsRead.IncompleteWaits | src/net_manager.cpp:668-674 | the turns after one that found no whole frame change nothing |
| WsFront.DrainWhole | src/net_manager.cpp:637-662 | a whole frame at the front is posted and taken out, every later octet kept, and what the array then holds |
| WsFront.CloseStops | src/net_manager.cpp:633-636 | a whole close frame at the front, or one with an unknown opcode, stops the connection and posts nothing |
| WsFront.PingBlocks | src/net_manager.cpp:637-675 | pings, pongs and frames without FIN are neither stopped at nor taken out |
| WsFront.BlockedCallback | src/net_manager.cpp:625-676 | with such a frame, or one whose payload is no message, at the front a callback posts nothing and takes nothing out; its payload is masked once more each turn |
| WsFront.DrainCut | src/net_manager.cpp:628-675 | a frame cut short that getFrame waits for leaves the array as it is |
| WsFront.LateOutcome | src/net_manager.cpp:266-293 | with the end of a masked frame missing, the handler faults exactly when the payload spells its length, masked or unmasked, at one of its turns; else it waits, with the payload unmasked after an odd number of turns |
| WsFront.LeftUnmasked | src/net_manager.cpp:266-293 | inputs for it: masked messages with no body octet or one, cut after two or three payload octets, wait with those octets changed |
| WsFront.MaskedAgain | src/net_manager.cpp:270-293 | after that the whole frame gives the sender's payload exactly when the key octets over the octets received first are zero |
| WsFront.CutOutcome | src/net_manager.cpp:625-676 | for every message frame cut short and every content of the array: the handler waits with the received octets unchanged exactly when Upset does not hold, and what happens when it does |
| WsFront.CutFaultsIff | src/net_manager.cpp:266-293 | when a masked message has two body octets or more, the handler faults exactly on the cuts getFrame does not wait for |
| WsFront.StaleHeaderFaults | src/net_manager.cpp:256-293 | two to six octets of a header with a 64-bit length and four left-over octets make the handler fault |
| WsFront.LongCarrier | src/net_manager.cpp:256-293 | an unmasked sixteen-octet frame with one whole message is such a frame |
| WsReassembly.DrainTakes | src/net_manager.cpp:625-676 | one callback delivers the minimum of ten and the number of whole frames, and keeps every other octet, exactly when it comes to no cut that upsets it |
| WsReassembly.TenACallback | src/net_manager.cpp:625-676 | with whole frames in the array and nothing behind them one callback posts the first ten messages, or all when there are fewer |
| WsReassembly.DrainFaults | src/net_manager.cpp:625-676 | otherwise it faults, if the masked messages have two body octets or more |
| WsReassembly.Reassembly | src/net_manager.cpp:609-688 | over any run of reads that upset no callback: the delivered frames followed by what the array holds are the octets received, the messages are posted in order and once each, and the array never fills up |
| WsReassembly.GoesWellIff | src/net_manager.cpp:609-688 | for every stream of messages, every reading of it and every initial content of the array: each read does what it is to do exactly when none upsets the callback |
| WsReassembly.RunWaitsIff | src/net_manager.cpp:609-688 | when masked messages have two body octets or more, a run ends waiting exactly when no read upsets a callback, and faults exactly otherwise |
| WsReassembly.RunWaitsIffGood | src/net_manager.cpp:609-688 | without 64-bit lengths that is exactly when no read that the handler gets to the end of stops one to four octets short of a masked frame |
| WsReassembly.GoodReadsAreSound | src/net_manager.cpp:609-688 | reads that avoid those ends, and the second to sixth octet of a header with a 64-bit length, upset no callback whatever the array holds |
| WsReassembly.UnmaskedReadsAreGood | src/net_manager.cpp:609-617 | for unmasked frames without 64-bit lengths it is enough that each read fits the array |
| WsReassembly.PostedAllIffEmpty | src/net_manager.cpp:609-688 | when all has been read, all messages have been posted exactly when the array is empty |
| WsReassembly.LastReadDecides | src/net_manager.cpp:625-676 | the last read delivers everything exactly when at most ten messages were left before it |
| WsReassembly.BlockedForEver | src/net_manager.cpp:609-688 | behind a ping, a pong, a fragment or a payload that is no message nothing is delivered, however many reads follow, and every octet stays in the array |
| WriteQueue.Connection.Enqueue | src/net_manager.cpp:516-522 | the locked push is the step Push of the system: the text is put behind all others, the flags stay |
| WriteQueue.Connection.MayWrite | src/net_manager.cpp:702-706 | the unlocked test is the step Check of the system |
| WriteQueue.Connection.TakeNext | src/net_manager.cpp:524-537 | the locked section is the step Lock, and a write follows exactly when the text is not empty |
| WriteQueue.Connection.WriteDone | src/net_manager.cpp:540-548 | the completion callback's locked section is the step Clear |
| WriteQueue.Connection.HandshakeDone | src/net_manager.cpp:587-597 | the handshake callback's locked section is the step Finish |
| WriteQueue.StepKeeps | src/net_manager.cpp:516-553 | every step of every thread keeps the invariant: one owner of is_writing, nothing lost or reordered, someone coming for every waiting text |
| WriteQueue.RunKeeps | src/net_manager.cpp:692-735 | the invariant holds after every run |
| WriteQueue.PushedIs | src/net_manager.cpp:516-522 | the history `pushed` is the texts of the run's own Push steps in order |
| WriteQueue.CanSendAll | src/net_manager.cpp:516-553 | from a resting state every list of non-empty texts can be pushed and written by one thread, ending at rest |
| WriteQueue.AtMostOneWrite | src/net_manager.cpp:524-553 | in every reachable state at most one write is on the socket, the handshake answer included |
| WriteQueue.NothingLost | src/net_manager.cpp:516-553 | written, then held by one thread or the socket, then queued, is the texts of the run's Push steps in lock order |
| WriteQueue.QuietAndQueued | src/net_manager.cpp:524-553 | no lost wake-up: with no thread inside a call, a text is queued only while a write is in flight - if and only if no empty text of those the run pushed was taken |
| WriteQueue.EmptyMessageSticks | src/net_manager.cpp:529-537 | a run in which an empty text leaves the next one queued for ever |
| ScriptQueue.ScriptManager.AddMsg | src/script_manager.cpp:306-309 | the message is behind all others |
| ScriptQueue.ScriptManager.TakeAll | src/script_manager.cpp:216-223 | the loop moves the whole queue in order |
| ScriptQueue.ScriptManager.LuaLoop | src/script_manager.cpp:215-229 | undisturbed, everything that waited is handled in order |
| ScriptQueue.HandOver | src/script_manager.cpp:215-309 | over every interleaving, handled, then temporary, then waiting is what there was at first followed by the messages of the run's own Add steps, in order |
| ScriptQueue.ProducerOrder | src/script_manager.cpp:215-309 | each producer's messages are handled in the order of its Add steps, once each |
| Database.DatabaseManager.GetConn | src/database_manager.cpp:55-90 | the loop over the queue and the new connection compute the pool's borrow function |
| Database.DatabaseManager.BackConn | src/database_manager.cpp:93-121 | an error changes nothing; otherwise the handle is queued under its name or closed |
| Database.DatabaseManager.Call | src/database_manager.cpp:123-190 | one job by itself posts one message and leaves every handle in exactly one place, whatever the server does |
| Database.FirstAlive | src/database_manager.cpp:55-76 | the first queued handle that answers the ping is handed out, those before it are closed, those behind it stay, no other name's queue changes |
| Database.NoneAlive | src/database_manager.cpp:55-90 | when none answers all are closed, and a new handle is handed out exactly when the name is configured and the server accepts |
| Database.GivenBack | src/database_manager.cpp:93-121 | a handle that could be reset goes to the end of its own queue, any other is closed, an error changes nothing |
| Database.ReusedNext | src/database_manager.cpp:55-121 | a handle given back to an empty queue is the next one handed out for that name while it answers |
| Database.ReplySays | src/database_manager.cpp:123-190 | the posted message: the cookie narrowed to an int, -1 without a connection, else mysql_query's value, rows exactly on success |
| Database.JobAsPosted | src/database_manager.cpp:46-53 | in every run a job keeps the cookie and the name it was posted with |
| Database.BorrowPlaced | src/database_manager.cpp:55-90 | what is handed out is held by nobody else and was opened for the name asked for |
| Database.GiveBackPlaced | src/database_manager.cpp:93-121 | giving back keeps every handle in one place and closes none twice |
| Database.GetKeeps | src/database_manager.cpp:55-90 | a GetConn step of one job keeps the invariant of all |
| Database.BackKeeps | src/database_manager.cpp:93-121 | a BackConn step of one job keeps the invariant of all |
| Database.EveryHandleInOnePlace | src/database_manager.cpp:55-121 | at any time, for any number of jobs and any outcomes, every handle is pooled under its name, held by one job of that name, or closed: exactly one, once |
| Database.WhenAllDone | src/database_manager.cpp:123-190 | once all jobs are done no handle is held and every job has a reply |
| Database.OneReplyEach | src/database_manager.cpp:46-190 | a job has a reply exactly when it is done, never two, and with its own cookie when that fits an int |
| Varint.PackVarint | src/script_protobuf.hpp:51-89 | the nine nested tests suffice: every 64-bit value gets its base-128 code |
| Varint.SizeVarint | src/script_protobuf.hpp:188-197 | the length of the code at the front, or the size_t image of -1 exactly when it is longer than len allows |
| Varint.UnpackVarint | src/script_protobuf.hpp:199-208 | the number the groups spell, modulo 2^64 |
| Varint.VarintDecoder | src/script_protobuf.hpp:210-224 | the value and next position, for every position in the string or at its end and every code of at most ten octets there, one cut off by the end of the string included |
| Varint.SignedVarintDecoder | src/script_protobuf.hpp:226-240 | the same positions and codes, read as a signed number |
| Varint.SignedVarintEncoder | src/script_protobuf.hpp:106-123 | the code of the two's complement image |
| Varint.CodeReadsBack | src/script_protobuf.hpp:51-89 | a code ends at its first octet without the top bit and spells its value |
| Varint.KnownCodes | src/script_protobuf.hpp:51-89 | the codes of 1, 150 and 300 are those of the encoding's description, and the second octet starts at 128 |
| Varint.CodeLength | src/script_protobuf.hpp:51-89 | a code has at most k octets exactly for values below 2^(7k) |
| Varint.AtMostTen | src/script_protobuf.hpp:51-89 | 64-bit values take at most ten octets, and ten exactly from 2^63 on |
| Varint.Shortest | src/script_protobuf.hpp:51-89 | of all codes of a value the encoder's is the only shortest |
| Varint.WalkBack | src/script_protobuf.hpp:188-224 | every list of 64-bit values comes back from its concatenated codes by walking from position to position, wherever they stand |
| Varint.SignedWalkBack | src/script_protobuf.hpp:106-240 | so does every list of signed 64-bit values |
| Varint.NegativeTakesTen | src/script_protobuf.hpp:106-117 | on that path a negative number always takes ten octets |
| Varint.TruncatedCode | src/script_protobuf.hpp:188-224 | a code cut off by the end of the string reads as if completed by a zero octet, and the position returned is one past the end |
| Varint.ZigZagLength | src/script_protobuf.hpp:242-268 | ZigZag and varint together: at most k octets exactly for -2^(7k-1) <= n < 2^(7k-1) |
| ZigZag.EncodeIs | src/script_protobuf.hpp:242-261 | the bit expression is 2n for n >= 0 and -2n-1 for n < 0, for every width |
| ZigZag.DecodeIs | src/script_protobuf.hpp:249-268 | the bit expression halves even codes and gives odd ones back their sign, for every width |
| ZigZag.DecodeEncode | src/script_protobuf.hpp:242-268 | decoding undoes encoding on all signed numbers of 32, 64 or any other number of bits |
| ZigZag.EncodeDecode | src/script_protobuf.hpp:242-268 | encoding undoes decoding on all unsigned numbers, so both are bijections |
| ZigZag.ReadingOfImage | src/script_protobuf.hpp:113-117 | the two's complement image read as signed is the number |
| Explode.Explode | src/net_manager.cpp:77-104 | terminates; with empty pieces kept the result is the split, by default it is the non-empty pieces that a delimiter follows |
| Explode.SplitIsUnique | src/net_manager.cpp:77-104 | a string has only one split |
| Explode.NoPieceContains | src/net_manager.cpp:77-104 | no piece contains the delimiter |
| Explode.AllKeptIff | src/net_manager.cpp:91-97 | by default no non-empty piece is lost exactly when the last piece is empty: only for strings that are empty or end in the delimiter, and for all of those when no proper prefix of the delimiter is its suffix |
| Explode.LastRowLost | src/net_manager.cpp:91-97 | the last of two header rows is lost |
| EndToEnd.SentInOrder | src/net_manager.cpp:516-553 | at every moment of every run, what was written, is in flight or failed on the way is the beginning of the texts of its Push steps |
| EndToEnd.QuietMeansWritten | src/net_manager.cpp:516-553 | when no thread is inside a call, nothing is in flight and nothing failed, the text of every Push step has been written, in order |
| EndToEnd.TcpInOrder | src/net_manager.cpp:430-553 | whatever the threads are doing and whatever part the peer has read of the octets handed to the socket, a failed write's included: it has posted the whole messages in that part, in push order, once each |
| EndToEnd.TcpDelivers | src/script_manager.cpp:89-100 | every list of messages arrives, for every interleaving and every way of reading |
| EndToEnd.ClientLoop | tcp_client.cpp:106-131 | everything the client sends for the lines typed is their messages, end to end |
| EndToEnd.ClientReadsBack | tcp_client.cpp:112-130 | however it is read, the server posts the lines one by one with action 1 |
| EndToEnd.FramedCarries | src/net_manager.cpp:692-694 | the frame made of a message is one the reader accepts, unmasked, and carries that message |
| EndToEnd.WsInOrder | src/net_manager.cpp:609-735 | over a WebSocket, at every moment: what the peer has posted is the beginning of the list, its frames followed by the array are the octets read, and the array has room |
| EndToEnd.WsDelivers | src/net_manager.cpp:609-735 | once quiet and read, the list has arrived exactly when the array is empty |
| EndToEnd.WsLastRead | src/net_manager.cpp:625-735 | and that is so exactly when at most ten messages were missing before the last read |
| EndToEnd.TenAtOnce | src/net_manager.cpp:625-676 | up to ten messages in one read are all delivered |
| EndToEnd.ElevenAtOnce | src/net_manager.cpp:625-676 | eleven messages in one read are not all delivered |

## Left out

- Sockets, acceptors, signals, thread pools and logging: a read is "some octets arrive", a write completes or fails, and buffers live as long as they are used.
- Uninitialised members: `cur_read_len` and `is_writing` are taken to start as 0 and false, `query_flag` and `aff_rows` are not modelled before they are set.
- Data races on the C++ level: the unlocked read of `finish_hand_shake` is one atomic step, and mutexes exclude each other.
- WsReassembly.RunWaitsIff: assumes at least two body octets in every masked message, so that the length field has arrived when at most four octets are missing; GoesWellIff has no such assumption, but then a run that does not go well may wait with changed octets instead of faulting.
- WsReassembly.RunWaitsIffGood: assumes no 64-bit lengths, because with them the octets left over in the array decide, as GoesWellIff and RunWaitsIff say.
- WsReassembly.UnmaskedReadsAreGood: the same; what a read must avoid when there are 64-bit lengths is in GoodReadsAreSound.
- WsFront.CutFaultsIff: assumes two body octets in a masked message; CutOutcome covers the others.
- WsRead.WsConnection.OnRead: requires that the handler does not go outside the received octets, where the language says nothing about what it does; DrainTakes and RunWaitsIff say exactly when that is. Control frames, fragments and payloads that are no message are the subject of CloseStops, BlockedCallback and BlockedForEver, which take them whole; for such a frame cut short there are only the claims about getFrame (FrameLaws.ParseCut, FrameLaws.CutWaitsIff).
- Frame.GetFrame: requires that no access lies outside the buffer and no int sum overflows, which the language leaves undefined; a 64-bit length that reads as negative is accepted only inside these bounds.
- Explode.Explode: requires a string shorter than 2^31, the range of its `int length`, and a non-empty delimiter, without which it does not terminate.
- Varint.VarintDecoder: requires a position within the string, the pointer the code makes being undefined beyond it, and a code of at most ten octets.
- Varint.SignedVarintDecoder: the same.
- Varint.UnpackVarint: requires at most ten octets, because a longer code shifts by 64 bits or more, which the language leaves undefined.
- Database.EveryHandleInOnePlace: a handle is the number of its mysql_init call; that an address may be used again after mysql_close is not modelled.
- Database.OneReplyEach: cookies outside the range of an int are narrowed, as the code does.
- Database.DatabaseManager.Call: the posted message's error_info, aff_rows and is_query are not modelled; is_query and aff_rows are not set on every path.
- What MySQL answers: pings, connects, queries and resets have any outcome. Error texts and affected rows are left out of the replies of the step system too.
- Lua's C API and its number type: varint and ZigZag claims are about fixed-width integers, not about what a Lua number can hold.
- `struct_pack`, the fixed32 and fixed64 readers and the `iostring_*` buffer: copies without a hard property.
- The `operator<<` wrappers and the single-octet `Input` overloads of SHA1: they call the `Input` modelled here.
- `parseHandshake`, URL and header trimming, configuration, `main` and the managers' start-up: plumbing around the parts modelled.
- The handshake read: the WebSocket model starts with an empty array after it; octets that arrive behind the request's blank line stay in the handshake's own buffer.
- `isFrame`, `makeFrame` and `AllocNetAddr`: nothing here depends on them.
- `HttpConnection`: its write path does not send the queued texts.
- The Lua handlers `LuaLoop` calls: handling a message is one step.
