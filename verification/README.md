# MIMC client: a verified model

A Dafny model of the core of the MIMC C++ client and of the properties its parts rely on.

| files | component |
|---|---|
| `Bytes`, `Adler32`, `AdlerDetection` | the checksum of `src/adler32.c`: all paths, both builds, combining, and which corruptions it detects |
| `ProtoWire`, `ProtoStream`, `ProtoMessage`, `ProtoLaws`, `ProtoGenerated`, `ProtoSchemas`, `ProtoBytes` | the generated message classes and the parts of the protobuf library they call |
| `Frame`, `FrameLaws`, `FrameBytes`, `FrameBuffer` | packets: encoding, decoding, encryption, corruption |
| `P2PNode`, `P2PNat`, `P2PProcessor`, `P2PPeers` | hole punching: one node, its timed loop, NAT detection, two peers |
| `CallTable`, `CallLaws`, `CallReports`, `CallEffects`, `CallUser` | the RTS call table, the relay connection it keeps alive, what is said about a call, and what each event does to it |
| `Compound` | pull notifications and packet lists |
| `RingQueue`, `Backoff` | the demo's ring queue and the reconnect backoff |

`dafny verify dfyconfig.toml` checks all of it.

## How the model is built

Where the program changes objects and buffers step by step, the model does too: arrays and a stream for the checksum,
the packets and the parsers, classes for the generated messages, the P2P processor, the user, the packet manager, the
queue and the backoff. Each method states its whole effect through a specification function on values
(`Checksum`, `ParseLoop`, `Encode`, `HandleBurrowPacket`, `HandleSignal`, ...), and the laws are proved about those
functions, over every input or every run. What a function decides is stated once more from the outside, in terms of the
fields of its inputs and the literal bytes, states and codes of the original (`CallEffects`, `FrameBytes`, `ProtoBytes`,
`Compound.NormalMeans`, `P2PPeers.InfoSentWhen`, ...).

* **Messages.** All generated classes are the same text with other fields, so a class is a `Schema` and a message is
  the map from the numbers of its set fields to their values. The parser is proved for every schema with ascending
  field numbers below 16, which the messages of `ProtoSchemas` have.
* **Protocols** are state machines. The two-peer model interleaves the loops' looks and actions, the handlers and the
  deliveries of both ends in any order; a packet once sent can be delivered any number of times, at any time, or
  never. A log kept by an observer records acceptances, openings and losses.
* **The world** (sockets, the transceiver, clocks, random draws, the application's answers, the users' names) enters
  as parameters that may have any value. RC4 is an arbitrary keystream per key, XORed to the text.

## What the proofs found

* `encodePacket` keeps the header length in a `short`: a header of 2^15 bytes or more is sent as an empty ping or
  written past the buffer (`FrameLaws.EncodeLong`). The round trip holds exactly below that.
* A SECMSG without a message is sent, and no receiver accepts it (`FrameLaws.SecmsgNeedsPayload`).
* The `.proto` file has a third stream strategy; the generated code does not know it and rejects such a configuration
  (`ProtoSchemas.UnknownStrategyDropped`), keeping its other fields. The model follows the generated code.
* `run` reads the P2P state twice to compute its result: if INTRANET_OK is reached between the reads, an error code is
  reported for a node that is connected (`P2PProcessor.RunMissingSuccess`). In all other cases, and only in those, the
  result is a success code exactly in an OK state.
* The bind response of the relay is taken without looking at the connection it came on. One that arrives after the
  connection was closed leaves a link that counts as created, with no connection; every call taken or dialled after
  that has no relay, until a failing bind response or a failed relay connection resets the link
  (`CallLaws.LateBindRun`, `CallLaws.StuckStays`, `CallLaws.RelayExactly`).
* Such a failure clears the call table without a callback (`CallReports.FailureIsSilent`), and so does the loss of the
  relay for calls that are not connected yet (`CallReports.LossEnds`). Logging out reports a call that is listed twice
  closed twice (`CallReports.ClosedTwice`).
* A detection that times out stores the relay's address, and the answers that come later are compared with it: the NAT
  type then depends on more than the answers (`P2PNat.LateAnswers`), exactly as `P2PNat.RunClassifies` says.
* After a P2P connection was closed abnormally, a repeated echo opens its channel again (`P2PPeers.EchoReopens`).
* A refused invitation is not answered at all while there is no local address (`CallReports.RefusedInvite`).
* `addCompoundSequenceAndCleanOld` has a parameter that hides the member of the same name, so no sequence is ever
  remembered and a repeated list is delivered again (`Compound.DeliverTwice`). `pull` sends nothing while offline.
* The second deviation of the backoff is cast to `int`: with a cap and a jitter whose product, times 0.999999, is 2^31
  or more, the cast can be out of range, which C++ leaves open, and the delay can exceed the cap
  (`Backoff.BoundsForEveryDraw`, `Backoff.CastExample`). Without jitter a `cap` below `base` wins. With a negative
  factor delays can shrink, exactly as `Backoff.DelaysGrow` says. The constructor with parameters leaves the number of
  attempts unset.
* `size()` of the ring queue is right only while the indices have not wrapped, or at exactly half
  (`RingQueue.ThreadSafeQueue.Size`).

## Model

| member | source | states |
|---|---|---|
| `Adler32.KnownChecksum` | src/adler32.c:65-133 | the reference definition gives 0x024d0127 for the three bytes "abc" |
| `Adler32.ChecksumConcat` | src/adler32.c:64-133 | checksumming A and then B is checksumming A followed by B, for every split |
| `Adler32.NoOverflow` | src/adler32.c:15-16 | at most NMAX bytes after starting sums of 16 bits never push either unreduced sum to 2^32 |
| `Adler32.NmaxIsLargest` | src/adler32.c:15-16 | one byte more can: with reduced starting sums and all bytes 255 the second sum reaches 2^32; and 16 divides NMAX |
| `Adler32.Mod28` | src/adler32.c:35-39 | in both builds the result is the remainder by 65521, for inputs below 2^28 |
| `Adler32.Mod` | src/adler32.c:40-44 | the same for all 32-bit inputs |
| `Adler32.Mod63` | src/adler32.c:45-57 | the same for all nonnegative 63-bit inputs |
| `Adler32.Do16` | src/adler32.c:18-22 | sixteen unrolled additions extend the unreduced sums by exactly those sixteen bytes, without overflow |
| `Adler32.ChecksumByte` | src/adler32.c:77-86 | the one-byte path gives the RFC 1950 sums after that byte |
| `Adler32.ChecksumShort` | src/adler32.c:92-102 | the path for fewer than 16 bytes gives the RFC 1950 sums, in both builds |
| `Adler32.Block` | src/adler32.c:104-114 | an NMAX block with one reduction at its end gives the reduction of the unreduced sums |
| `Adler32.Rest` | src/adler32.c:116-129 | so do the remaining bytes |
| `Adler32.Checksum32` | src/adler32.c:65-133 | for every valid starting checksum, every byte sequence and both builds, all paths together give the RFC 1950 sums reduced at every byte; a null buffer gives 1 |
| `Adler32.ReduceOnce` | src/adler32.c:104-129 | reducing once at the end equals reducing at every byte |
| `Adler32.CombineIsConcat` | src/adler32.c:135-162 | the combine formula applied to the checksums of A and B and the length of B is the checksum of A followed by B |
| `Adler32.Adler32Combine` | src/adler32.c:135-162 | the code computes that formula in 32-bit arithmetic, in both builds, its conditional subtractions leave both halves below 65521, and a negative length gives 0xffffffff |
| `AdlerDetection.DividesFactor` | src/adler32.c:14 | 65521 divides a product with a byte-sized factor only if it divides the other factor (its primality, as far as bytes need it) |
| `AdlerDetection.ByteChangeDetected` | src/adler32.c:65-133 | changing any one byte changes the checksum |
| `AdlerDetection.SwapDetected` | src/adler32.c:65-133 | swapping two bytes changes the checksum if and only if they differ and their distance is no multiple of 65521 |
| `Bytes.Big16Inverse` | src/packet_manager.cpp:828-833 | char2short gives back the int16_t short2char wrote |
| `Bytes.Big32Inverse` | src/packet_manager.cpp:835-845 | char2int gives back the int32_t int2char wrote |
| `Bytes.Int32AtInjective` | src/packet_manager.cpp:878-885 | equal int32_t values mean equal four bytes |
| `Frame.CryptTwice` | src/rc4_crypto.cpp:51-60 | for any keystream, applying the cipher twice with one key gives the text back |
| `FrameBuffer.Short2Char` | src/packet_manager.cpp:828-833 | exactly two bytes of the buffer change, to the big-endian value |
| `FrameBuffer.Int2Char` | src/packet_manager.cpp:835-845 | exactly four bytes of the buffer change, to the big-endian value |
| `FrameBuffer.DoRC4Crypt` | src/rc4_crypto.cpp:51-60 | the output buffer is the text XORed with the keystream of the key |
| `FrameBuffer.Seal` | src/packet_manager.cpp:161-170 | the packet written in place is header, body and the checksum of everything before the trailer |
| `FrameBuffer.EncodePacket` | src/packet_manager.cpp:93-176 | the encoder, working on buffers, returns what the specification function says: -1 if a cipher fails, an overrun if the header does not fit its length field, else the packet |
| `FrameBuffer.DecodePacket` | src/packet_manager.cpp:178-211 | the decoder, decrypting in place, returns what the specification function says, with reads outside the packet reported as such |
| `FrameBuffer.DecodeBodyInPlace` | src/packet_manager.cpp:209-217 | header and payload are taken from their offsets, the SECMSG payload is decrypted where it stands |
| `FrameLaws.SealedChecks` | src/packet_manager.cpp:161-192 | a sealed packet passes the magic, version, length and checksum tests and holds its body at offset 8 |
| `FrameLaws.PingBytes` | src/packet_manager.cpp:161-170 | a ping is exactly C2 FE 00 05 00 00 00 00 0D 23 01 C6 |
| `FrameLaws.FrameRoundTrip` | src/packet_manager.cpp:93-217 | for every header with a command, every payload and agreeing keys: decoding the encoded packet gives payload type, header and plaintext payload back if and only if the header is shorter than 2^15 bytes |
| `FrameLaws.ClientHeaderOk` | src/packet_manager.cpp:28-38 | the header the client makes is well formed for any ids and names, and as long as its texts with at most 131 bytes more |
| `FrameLaws.ConnRoundTrip` | src/packet_manager.cpp:28-54 | the first packet of a session, with that header: its payload comes back iff the header is shorter than 2^15 bytes, which it is unless resource and id fill it; from there to 2^16 it is sent as a ping |
| `FrameLaws.EncodeLong` | src/packet_manager.cpp:93-101 | a longer header is encoded as the empty ping or overruns the buffer, by the sign of its length as a short |
| `FrameLaws.PingRoundTrip` | src/packet_manager.cpp:88-104 | without a command the packet decodes as a ping, whatever message and keys came with it |
| `FrameLaws.SecmsgNeedsPayload` | src/packet_manager.cpp:104-118 | a SECMSG without a message is sent but rejected by every receiver; with an empty one it is not sent |
| `FrameLaws.ByteChangeRejected` | src/packet_manager.cpp:178-192 | changing any one byte of a sealed packet outside its length field makes the decoder return -1 |
| `FrameLaws.SwapRejected` | src/packet_manager.cpp:178-192 | swapping two body bytes makes the checksum test fail if and only if they differ and are no multiple of 65521 apart; then the decoder returns -1 |
| `FrameLaws.CorruptedPacketRejected` | src/packet_manager.cpp:93-192 | both, for whatever encodePacket produced |
| `FrameBytes.EncodeDecides` | src/packet_manager.cpp:93-176 | for any header below 2^15 bytes with command field 5, any message and keys, with the commands as texts: for "SECMSG" the message goes into the body encrypted with the payload key, and encoding fails without that key or with an empty message; any command but "CONN" has its body encrypted with the body key, and fails without it; "CONN" goes in the clear |
| `FrameBytes.ConnBytes` | src/packet_manager.cpp:133-170 | the 27 bytes of a packet with a body: command CONN and payload 01, payload type 2, lengths and checksum included |
| `FrameBytes.DecodeChecks` | src/packet_manager.cpp:178-207 | the decoder up to the body, for any bytes: rejected without C2 FE 00 05 in front or with a checksum that is not that of the bytes before it; a ping with an empty body; else the body is decrypted with the connection key, if there is one, and read on |
| `FrameBytes.HeaderDecides` | src/packet_manager.cpp:209-217 | a body whose header does not parse is rejected; a header that is not in the buffer is a misread |
| `FrameBytes.PayloadArrives` | src/packet_manager.cpp:209-286 | with a header that parses, any payload in the buffer is handed over, decrypted with the user key iff the command is "SECMSG"; an empty one of those, or an empty key, is rejected; a payload that is not in the buffer matters only for the four commands |
| `FrameBytes.Commands` | include/mimc/constant.h:76-81 | the command texts and the server name are the ASCII bytes of CONN, BIND, KICK, SECMSG and xiaomi.com |
| `FrameBytes.CipherBits` | src/rc4_crypto.cpp:51-60 | the cipher leaves every bit alone where the keystream has a 0 and flips it where it has a 1 |
| `ProtoWire.VarintRoundTrip` | third-party/protobuf-2_5_0/src/google/protobuf/io/coded_stream.cc:422-443 | reading a written varint gives the value and stops right behind it, for 64 and 32 bits |
| `ProtoWire.VarintSizeIsLength` | third-party/protobuf-2_5_0/src/google/protobuf/io/coded_stream.cc:827-853 | the comparisons of VarintSize64 give the number of bytes written |
| `ProtoStream.CodedInputStream.ReadVarint64` | third-party/protobuf-2_5_0/src/google/protobuf/io/coded_stream.cc:422-443 | the loop that shifts digits into a 64-bit word agrees with the base-128 reading of the bytes, at most ten of them |
| `ProtoStream.CodedInputStream.ReadTag` | third-party/protobuf-2_5_0/src/google/protobuf/io/coded_stream.h:842-859 | the tag, or 0 at the limit or on a malformed varint; only the limit counts as a legitimate end |
| `ProtoStream.CodedInputStream.ExpectTag` | third-party/protobuf-2_5_0/src/google/protobuf/io/coded_stream.h:861-882 | consumes the next byte exactly if it is the expected tag |
| `ProtoStream.CodedInputStream.ExpectAtEnd` | third-party/protobuf-2_5_0/src/google/protobuf/io/coded_stream.h:905-916 | true, and a legitimate end, exactly at the limit |
| `ProtoStream.CodedInputStream.ReadString` | third-party/protobuf-2_5_0/src/google/protobuf/wire_format_lite.cc:344-351 | the announced bytes, or all that are left when there are too few |
| `ProtoStream.CodedInputStream.PushLimit` | third-party/protobuf-2_5_0/src/google/protobuf/io/coded_stream.cc:112-135 | the new limit is the announced length or the old limit, whichever is closer |
| `ProtoStream.CodedInputStream.SkipField` | third-party/protobuf-2_5_0/src/google/protobuf/wire_format_lite.cc:111-154 | skips exactly one field, groups included, within the recursion limit |
| `ProtoStream.CodedInputStream.SkipMessage` | third-party/protobuf-2_5_0/src/google/protobuf/wire_format_lite.cc:156-173 | skips fields up to the end or an end-group tag |
| `ProtoLaws.SizeIsLength` | src/rts_data.pb.cc:874-994 | the serialized length is ByteSize, recursively through nested messages, while it fits an int |
| `ProtoLaws.ParseIsMerge` | src/rts_data.pb.cc:738-1024 | parsing serialize(b) into a is MergeFrom(a, b), recursively through nested messages |
| `ProtoLaws.RoundTrip` | src/rts_data.pb.cc:738-1024 | parsing serialize(b) into an empty message gives b, and ParseFromArray accepts it exactly if every required field is set |
| `ProtoLaws.ParseConcatenation` | src/rts_data.pb.cc:738-1024 | two serialized messages one behind the other parse to their merge |
| `ProtoLaws.MergeAssociative` | src/rts_data.pb.cc:996-1024 | merging is associative, nested messages included |
| `ProtoLaws.MergeIntoEmpty` | src/rts_data.pb.cc:996-1024 | merging into an empty message copies |
| `ProtoLaws.MergeOfField` | src/rts_data.pb.cc:996-1024 | field by field: a field set in the source takes its value, merged if nested; any other field is kept |
| `ProtoLaws.InitializedMeans` | src/rts_data.pb.cc:1032-1045 | a message is initialized iff every required field is set and every nested message that is set is initialized |
| `ProtoLaws.OlderReader` | src/rts_data.pb.cc:858-869 | a reader that lacks some of the writer's fields reads the ones it has and skips the others |
| `ProtoLaws.SkipUnknown` | third-party/protobuf-2_5_0/src/google/protobuf/wire_format_lite.cc:111-154 | an encoded field of any type is skipped whole |
| `ProtoGenerated.ExpectedTag` | src/rts_data.pb.cc:752-766 | meeting the one-byte tag of a field and jumping to its label is the same as going round the loop |
| `ProtoGenerated.GeneratedMessage.MergePartialFromCodedStream` | src/rts_data.pb.cc:738-872 | the parser with its jumps from field to field and its early return computes what the plain tag loop does: same result, fields, bytes left and kind of end, on every input |
| `ProtoGenerated.GeneratedMessage.FollowJumps` | src/rts_data.pb.cc:752-856 | from one label on, the jumps from field to field and the expected end compute what the plain loop would from there |
| `ProtoGenerated.GeneratedMessage.ParseField` | src/rts_data.pb.cc:743-856 | one label: reads the value and sets the field as the specification function says, also on failure |
| `ProtoGenerated.GeneratedMessage.ParseNested` | third-party/protobuf-2_5_0/src/google/protobuf/wire_format_lite_inl.h:396-411 | a nested message is parsed under its own limit and nesting depth and must end at its limit |
| `ProtoGenerated.GeneratedMessage.ParseFromArray` | third-party/protobuf-2_5_0/src/google/protobuf/message_lite.cc:141-145 | clear, parse, and accept only with all required fields and all bytes consumed |
| `ProtoGenerated.GeneratedMessage.ByteSize` | src/rts_data.pb.cc:924-989 | the accumulated total is the specified size |
| `ProtoGenerated.GeneratedMessage.SerializeWithCachedSizes` | src/rts_data.pb.cc:874-922 | appends the set fields in declaration order to the output |
| `ProtoGenerated.GeneratedMessage.MergeFrom` | src/rts_data.pb.cc:996-1024 | the receiver becomes the specified merge, the argument is unchanged |
| `ProtoSchemas.SchemasOk` | src/control_message.pb.cc:131-229 | PushServiceConfigMsg and the call messages meet the conditions of the laws: fields numbered from 1 in order, at most 15, at most one level of nesting |
| `ProtoSchemas.CallMessageRoundTrip` | src/rts_data.pb.cc:3572-3752 | the round trip for PushServiceConfigMsg, StreamConfig, BindRelayRequest, BurrowPacket, RouterPacket, UserPacket and ClientHeader |
| `ProtoSchemas.FlatMerge` | src/rts_data.pb.cc:3754-3779 | without nested messages the last one wins, field by field |
| `ProtoSchemas.StreamConfigsMerge` | src/rts_data.pb.cc:1014-1022 | a StreamConfig both BindRelayRequests carry is merged field by field, not replaced |
| `ProtoSchemas.KnownBytes` | src/control_message.pb.cc:231-258 | 150 as clientVersion is 18 96 01 on the wire; 300 is AC 02; -1 takes ten bytes |
| `ProtoSchemas.UnknownStrategyDropped` | src/rts_data.pb.cc:105-113 | for every well-formed StreamConfig of the .proto file: the generated code accepts it iff its strategy is set and not the third one; a third strategy is dropped, everything else kept |
| `ProtoSchemas.ThirdStrategyBytes` | src/rts_data.pb.cc:1148-1164 | the configuration with nothing but the third strategy is 08 03 on the wire, and rejected |
| `ProtoBytes.MessageFields` | proto/rts_data.proto:31-149 | number, type and required flag of every field of the seven messages |
| `ProtoBytes.EnumValues` | src/rts_data.pb.cc:85-165 | the values their enums know, and the nested stream configurations |
| `ProtoBytes.BurrowRequired` | src/rts_data.pb.cc:3572-3752 | a burrow packet is initialized iff all its five fields are set |
| `ProtoBytes.BurrowBytes` | src/rts_data.pb.cc:3572-3752 | a whole burrow packet as eleven bytes |
| `ProtoBytes.NumberRead` | src/rts_data.pb.cc:743-856 | any 64-bit word on the wire becomes the number of the field type that agrees with it in the bits the type has; a bool is whether its low 32 bits are not all 0; an unknown enum value is dropped |
| `ProtoBytes.TextRead` | src/rts_data.pb.cc:3594-3605 | a text with any announced length: read iff that many bytes are there and the length is below 2^31; too short a rest becomes the value, and reading fails |
| `ProtoBytes.NestedRead` | third-party/protobuf-2_5_0/src/google/protobuf/wire_format_lite_inl.h:392-405 | a nested message with any announced length is parsed from the bytes announced, or from all that are left if they are fewer, one level down, and has to end where they end |
| `ProtoBytes.StopsEarly` | src/rts_data.pb.cc:742-870 | a zero tag, an unreadable tag or an end of a group as first tag: the message is not accepted |
| `ProtoBytes.OtherWireType` | src/rts_data.pb.cc:858-867 | a known field with another wire type is skipped, not read |
| `ProtoBytes.TenBytesAtMost` | third-party/protobuf-2_5_0/src/google/protobuf/io/coded_stream.cc:422-443 | a varint is read iff one of the first ten bytes is below 80 hex, and ends at the first such byte |
| `ProtoBytes.BitsDiscarded` | third-party/protobuf-2_5_0/src/google/protobuf/io/coded_stream.cc:355-443 | where 32 bits are wanted the higher ones are discarded, and so are all but the lowest bit of a tenth byte |
| `ProtoBytes.FixedSkips` | third-party/protobuf-2_5_0/src/google/protobuf/wire_format_lite.cc:111-154 | an unknown fixed field takes eight or four bytes; a stray end of a group or an unused wire type fails |
| `ProtoBytes.VarintSkips` | third-party/protobuf-2_5_0/src/google/protobuf/wire_format_lite.cc:112-128 | an unknown varint is skipped whole, and so are the announced bytes of an unknown text, iff they are there and fewer than 2^31 |
| `ProtoBytes.GroupSkips` | third-party/protobuf-2_5_0/src/google/protobuf/wire_format_lite.cc:128-139 | groups nested d deep inside a group are skipped iff d is below the levels left |
| `ProtoBytes.HundredGroups` | third-party/protobuf-2_5_0/src/google/protobuf/io/coded_stream.cc:83 | groups nobody knows are skipped up to a hundred deep, and no deeper |
| `P2PNode.ResourceRoundTrip` | src/p2p_processor.cpp:463-470 | the printed natType and flag parse back to what was printed, for every unsigned char |
| `P2PNode.PrintExample` | src/p2p_processor.cpp:467-470 | type 2 of a node that knows its peer is printed "2\|1" |
| `P2PNode.TextParses` | src/p2p_processor.cpp:863-876 | any text: with something before and behind its first bar it is a type and a flag, else all of it is read as the type |
| `P2PNat.DetectClassifies` | src/p2p_processor.cpp:654-704 | for any node no server has answered yet, whatever its state and whether or not its detection timed out, and any answers of the detection servers, in any order and with repetitions: the stored WAN port is the largest of the answers and of the one held before; the type is SYMMETRIC iff two ports differ or one differs from the expected one (the one held, else a known relay port), else PORT_RESTRICTED_CONE after two servers (one, if an address was held) and UNKNOWN before; the state advances exactly then |
| `P2PNat.TwoKinds` | src/p2p_processor.cpp:667-695 | what that means with no port known and with one held: two agreeing answers make a cone, or one that agrees with it |
| `P2PNat.OrderDoesNotMatter` | src/p2p_processor.cpp:654-704 | from any such node, timed out or not, the same answers in another order and with other repetitions give the same type, port, state and record |
| `P2PNat.AnswersDecide` | src/p2p_processor.cpp:162-191 | for any run of looks, passes and handlers of an end, from any state: at every moment record, WAN address and type are what the answers alone would have made, iff no pass has timed out to another address (the relay's) |
| `P2PNat.RunClassifies` | src/p2p_processor.cpp:654-704 | for every such run from a node no server has answered: they are the classification of the answers and of the address held when the first of them came |
| `P2PNat.HeldIsRelays` | src/p2p_processor.cpp:169-176 | that address is the one the run began with, or the relay's, written by the last pass that timed out before the first answer |
| `P2PNat.AfterIsLive` | src/p2p_processor.cpp:161-231 | the timed loop with its handlers, after any number of passes, is such a run |
| `P2PNat.SilenceTimesOut` | src/p2p_processor.cpp:166-180 | without any event the 101st pass stores the relay's address and times out, whatever the world does |
| `P2PNat.LateAnswers` | src/p2p_processor.cpp:672-695 | after that, with port 1000 from the relay, one server answering 1000 makes a cone, and one answering 500 a symmetric NAT with port 1000, where the answers alone would leave the type unknown |
| `P2PNat.OtherConeDependsOnOrder` | src/p2p_processor.cpp:667-671 | with an answer from another port the outcome does depend on order: a concrete pair |
| `P2PNat.OtherPort` | src/p2p_processor.cpp:667-671 | for any node a new answer from another port alone is the address and the type, and ends detection |
| `P2PNat.TypeCodes` | src/p2p_processor.cpp:654-704 | the type codes 0 to 3 by example |
| `P2PProcessor.P2PProcessor.UpdateP2PState` | src/p2p_processor.cpp:376-379 | the state only ever advances |
| `P2PProcessor.P2PProcessor.HandleNetDetectResp` | src/p2p_processor.cpp:654-704 | the handler changes record, WAN address, type and state as the node function says |
| `P2PProcessor.P2PProcessor.HandleNetInfo` | src/p2p_processor.cpp:852-881 | it records type and both addresses and advances only on the flag |
| `P2PProcessor.P2PProcessor.HandleBurrowPacket` | src/p2p_processor.cpp:718-841 | a packet that fails a check changes nothing; a request is echoed with its id and channel; a response opens its channel once, for a creator with a connection |
| `P2PProcessor.P2PProcessor.SendNetInfo` | src/p2p_processor.cpp:417-507 | the message sent, if any, and the advance that comes with it |
| `P2PProcessor.P2PProcessor.SendBurrowRequest` | src/p2p_processor.cpp:509-612 | the requests that leave, if any, and the advance that comes with them |
| `P2PProcessor.HandleAdvances` | src/p2p_processor.cpp:376-379 | no handler moves the state back |
| `P2PProcessor.PassSpends` | src/p2p_processor.cpp:162-225 | a pass of the loop spends one of three budgets, or leaves its phase, or stops |
| `P2PProcessor.PassCounts` | src/p2p_processor.cpp:162-216 | detect rounds, net-info calls and burrow requests follow the schedule of their counters, numbered in order |
| `P2PProcessor.SwitchLabels` | src/p2p_processor.cpp:162-220 | the phases are the groups of case labels of the switch |
| `P2PProcessor.Schedule` | src/p2p_processor.cpp:166-209 | the counters at which something is sent: every tenth of a hundred passes, every fortieth of two hundred, and thirteen of five hundred, as a list |
| `P2PProcessor.DetectPassDoes` | src/p2p_processor.cpp:162-172 | a pass of the detection phase: at the counters 0, 10, .. 90 the local address is looked up unless it is known, and START becomes NET_DETECT; at all others nothing changes |
| `P2PProcessor.ErrorsMean` | src/p2p_processor.cpp:166-216 | in every run the error code is 4 if some pass found the punch budget spent, else 1 if some pass ended detection without an address, plus 2 if some pass found the exchange budget spent |
| `P2PProcessor.ResultCodes` | src/p2p_processor.cpp:234-240 | the result is 1 iff the first read sees INTRANET_OK, 2 iff it does not and the second sees INTERNET_OK, and minus the error code in all other cases |
| `P2PProcessor.SilentRun` | src/p2p_processor.cpp:151-243 | without any event, whatever the world does, the loop stops after exactly 804 passes with all budgets spent, 13 requests and error code 4 |
| `P2PProcessor.P2PProcessor.Pass` | src/p2p_processor.cpp:162-225 | the switch, with its sends, does what the step function says |
| `P2PProcessor.P2PProcessor.Run` | src/p2p_processor.cpp:151-243 | under any handler events before and within every pass, between the last pass and the first read of the state, and between the two reads: the node after the passes is that of the step functions, the loop stops exactly when first told to, within 804 passes, 10 detect rounds, 5 net-info calls and 13 burrow requests numbered 0, 1, 2, ...; the result is a success code exactly for a connected node, if and only if INTRANET_OK was not reached between the two reads |
| `P2PProcessor.P2PProcessor.Turn` | src/p2p_processor.cpp:162-225 | one turn: handlers, the look, handlers, the switch; it spends a budget or leaves its phase |
| `P2PProcessor.P2PProcessor.Conclude` | src/p2p_processor.cpp:234-240 | the result from the two reads, with any handlers between them |
| `P2PProcessor.ResultIsRight` | src/p2p_processor.cpp:234-240 | a success code for a connected node and no other, iff INTRANET_OK was not reached between the reads |
| `P2PProcessor.RunMissingSuccess` | src/p2p_processor.cpp:234-240 | a run with the internet echo before the first look and the intranet echo between the reads ends connected on both channels with result 0 |
| `P2PProcessor.RunInSilence` | src/p2p_processor.cpp:151-243 | the same on the object: result -4, 804 passes, 10 detect rounds, 5 net-info calls and 13 requests, so the bounds are exact |
| `P2PPeers.OkIsEarned` | src/p2p_processor.cpp:509-841 | two peers, any loss, repetition and reordering, connections closed at any time: an end is in INTRANET_OK (INTERNET_OK) only if its peer accepted one of its requests of that kind, numbered below 13, and the end then handled the echo, a creator with a connection; no end opens a channel a second time unless its connection was closed in between |
| `P2PPeers.EchoReopens` | include/mimc/p2p_callsession.h:80-94 | if it was, an echo that is repeated opens the channel again |
| `P2PPeers.AcceptanceHappened` | src/p2p_processor.cpp:738-787 | a logged acceptance is the delivery of a request the peer had sent and that passed the checks |
| `P2PPeers.InfoHappened` | src/p2p_processor.cpp:463-507 | a net-info message on the network was printed by a pass of its sender from the node it then was |
| `P2PPeers.ExchangeKnowledge` | src/p2p_processor.cpp:440-507 | when a net-info message moves an end to EXCHANGE_NET_INFO_OK, the node its sender printed it from, at that pass, held a nonzero WAN port for this end, which it had learned; and the end now holds that node's NAT type, and as its WAN and LAN address that node's own WAN and LAN address, each in its place, if that node had one |
| `P2PPeers.InfoSentWhen` | src/p2p_processor.cpp:417-507 | a pass sends net info iff it saw an exchange state, its counter is due, the node is not in NET_DETECT_TIMEOUT, the call is there and single, neither channel is open, and the node has a usable address; the message describes the node field by field |
| `P2PPeers.InfoStored` | src/p2p_processor.cpp:852-881 | for every node and printed message: addresses and type are stored as meant, and the state moves on iff the flag is set |
| `P2PPeers.RequestsSentWhen` | src/p2p_processor.cpp:509-612 | the burrow requests a pass puts on the network: in the punch states, at the due counters, for a single call, per channel, numbered by the round |
| `P2PPeers.BurrowDoes` | src/p2p_processor.cpp:718-841 | for every node and packet: what each field becomes, and that a packet failing any of the four checks changes nothing |
| `P2PPeers.StepKeeps` | src/p2p_processor.cpp:417-881 | every step of either end keeps the invariant behind these results |
| `P2PPeers.FromPeer` | src/p2p_processor.cpp:752-757 | a packet that passes the peer check was sent by the other end |
| `P2PPeers.OpeningHappened` | src/p2p_processor.cpp:790-841 | a logged opening is the delivery of an echo, on a channel not yet open, of a request the peer had accepted, for a creator with the logged connection |
| `P2PPeers.EchoOpens` | src/p2p_processor.cpp:509-841 | an undisturbed request and echo open either channel, from any states |
| `CallLaws.RunInv` | src/packet_manager.cpp:464-736 | in every run of signals, dialled and closed calls, answered invitations, bind responses, relay failures, lost connections and call timeouts: each call's insertions exceed its terminal callbacks, refused launches and clearings without a callback by one while it is in the table and by none otherwise, and in total by the size of the table; the limit holds. If, since the last failure, no bind response arrived without a relay connection: connection id and link state agree, no invitation waits for a relay that is bound, and the id is nonzero iff the table is nonempty, unless calls have lost their relay |
| `CallLaws.RelayExactly` | include/mimc/rts_stream_handler.h:36-101 | connection id and link state agree at the end of a run iff no bind response arrived without a connection since the last failure; the id is nonzero exactly for a nonempty table iff, besides, the calls have not lost their relay, or the table is empty |
| `CallLaws.LateIsStuck` | include/mimc/rts_stream_handler.h:63-101 | after a successful bind response without a connection the link counts as created, without one, until a failure is reported |
| `CallLaws.StuckStays` | include/mimc/rts_stream_handler.h:36-65 | of all events exactly a reported failure mends such a link: a failing bind response or a relay connection that cannot be created |
| `CallLaws.CallsWithoutRelay` | src/rts_send_data.cpp:12-15 | every invitation taken and every call dialled in between is in the table without a relay connection |
| `CallLaws.LateBindRun` | include/mimc/rts_stream_handler.h:63-101 | such a run: dial, close, bind response, invitation |
| `CallReports.LostRelayRun` | src/user.cpp:1624-1645 | a connected call with a connection to its peer survives the loss of the relay and has none then |
| `CallReports.SignalEnds` | src/packet_manager.cpp:547-685 | a signal removes a call iff it makes exactly one terminal callback for it, and reports the end of no other call |
| `CallReports.RefusedInvite` | src/packet_manager.cpp:475-545 | a refused invitation gets exactly one INVITE_RESPONSE (none without a local address) and changes nothing else; a taken one gets none and is in the table |
| `CallReports.SignalReplies` | src/packet_manager.cpp:464-736 | every BYE or UPDATE request on a call in the table is answered exactly once, with SUCC iff it was well formed; responses and signals for unknown calls are not answered; a signal touches only its own call |
| `CallReports.TimeoutsEnd` | src/user.cpp:400-484 | a scan ends exactly the listed calls that are not running and whose time is up, each by exactly one terminal callback |
| `CallReports.LossEnds` | src/user.cpp:1624-1684 | a connection closed abnormally ends calls only without a relay connection: exactly the listed ones without a connection to their peer, a connected one with one callback, any other with none |
| `CallReports.FailureIsSilent` | include/mimc/rts_stream_handler.h:36-62 | a reported failure empties the table and resets the relay without any callback; exactly the listed calls whose invitation is not answered yet get an INVITE_RESPONSE, if there is a local address |
| `CallReports.LogoutReports` | src/user.cpp:1559-1609 | logging out reports a connected call closed as often as it is listed, and no other call |
| `CallReports.ClosedTwice` | src/user.cpp:1799-1804 | an invitation repeated during its call lists it twice, and logging out then reports it closed twice |
| `CallLaws.BoundInv` | include/mimc/rts_stream_handler.h:63-101 | the bind response wakes every invitation in the table; with a relay connection it leaves the link in order |
| `CallLaws.DropShape` | src/rts_send_data.cpp:733-746 | removing a call closes the relay connection exactly when it was the last one |
| `CallEffects.CreateResponseDecides` | src/packet_manager.cpp:547-619 | a CREATE_RESPONSE that parses accepts its call iff result and error text are there, there are members (two in a single call) and the result is success: then the call runs, with exactly onAnswered(true), and its peer is the first member with the sender's uuid if peer-to-peer is on and unchanged otherwise; else it is gone, with exactly onAnswered(false), and the relay with the last call |
| `CallEffects.OtherSignalsDecide` | src/packet_manager.cpp:621-735 | for BYE and UPDATE signals: who is gone, the new peer, RUNNING after an UPDATE_RESPONSE, each answer with its code, and what changes nothing |
| `CallEffects.InvitationDecides` | src/packet_manager.cpp:475-545 | an invitation is refused for the first reason that applies, with its code, or taken with the sender's entry as its peer, and launched iff the relay is there |
| `CallEffects.AnswerDecides` | src/user.cpp:486-554 | an accepted call runs and its peer hears SUCC; a refused one leaves the map, and its peer hears PEER_REFUSE |
| `CallEffects.DialDecides` | src/user.cpp:1227-1310 | a dialled call comes in iff the user is ready, there is room, a relay, and no such call already; it is requested at once iff the relay is bound and there is a local address |
| `CallEffects.CloseDecides` | src/user.cpp:1502-1541 | a closed call is gone with onClosed; a BYE_REQUEST goes before it iff the call was connected |
| `CallEffects.BindDecides` | include/mimc/rts_stream_handler.h:63-101 | after a successful bind response every listed dialled call that waits has been sent exactly one CREATE_REQUEST and waits for its answer, every listed waiting invitation is launched exactly once, every listed call waiting for its update gets exactly one UPDATE_REQUEST; requests only with a local address; no other call changes, nothing else is noted |
| `CallEffects.TimeoutsDecide` | src/user.cpp:400-484 | a scan removes exactly the listed calls that are late and not running; onAnswered(false) for dialled ones, onClosed for invitations, BYE_REQUEST and onClosed for updates, each once, and nothing else |
| `CallEffects.LossDecides` | src/user.cpp:1624-1684 | the same for calls without a data channel when there is no relay connection: BYE_REQUEST and onClosed if connected, else no callback |
| `CallEffects.FailureDecides` | src/user.cpp:369-398 | a failing relay empties the table; who is told what, and how often, after a report and after a delay |
| `CallEffects.LogoutDecides` | src/user.cpp:1559-1609 | a BYE_REQUEST and onClosed for every place of a connected call in the list, and nothing else |
| `CallUser.RemoveFirstAt` | src/user.cpp:1842-1848 | the search loop removes the first occurrence |
| `CallUser.User.InsertIntoCurrentCallsMap` | src/user.cpp:1799-1804 | an id already present keeps its session, the list grows anyway |
| `CallUser.User.DeleteFromCurrentCallsMap` | src/user.cpp:1834-1851 | removes the session and the first occurrence in the list |
| `CallUser.User.CreateRelayConn` | src/rts_send_data.cpp:12-129 | the existing connection, or a new one that is then being created, or 0 |
| `CallUser.User.CloseRelayConnWhenNoCall` | src/rts_send_data.cpp:733-746 | resets the relay link exactly if there is a connection and no call |
| `CallUser.User.SendInviteResponse` | src/rts_send_signal.cpp:83-122 | queues the response exactly if there is a local address |
| `CallUser.User.HandleRtsSignal` | src/packet_manager.cpp:464-736 | the whole new table state of any signal |
| `CallUser.User.HandleInviteRequest` | src/packet_manager.cpp:475-545 | the whole new table state of an invitation, and the handler's result |
| `CallUser.User.HandleCreateResponse` | src/packet_manager.cpp:547-619 | the whole new table state of a CREATE_RESPONSE |
| `CallUser.User.HandleOtherSignal` | src/packet_manager.cpp:621-735 | the whole new table state of the BYE and UPDATE signals |
| `CallUser.User.SendCreateRequest` | src/rts_send_signal.cpp:8-63 | only with a bound relay and a local address; then the session waits for the answer |
| `CallUser.User.SendUpdateRequest` | src/rts_send_signal.cpp:173-217 | the same for an update |
| `CallUser.User.DialCall` | src/user.cpp:1227-1310 | the whole new table state of a dialled call and the id returned, 0 for a refusal |
| `CallUser.User.CloseCall` | src/user.cpp:1502-1541 | BYE_REQUEST only for a connected call; the call ends either way |
| `CallUser.User.OnLaunched` | src/user.cpp:486-554 | the answer of the application: INVITE_RESPONSE, then running or removed from the map only |
| `CallUser.User.HandleBindRelayResponse` | include/mimc/rts_stream_handler.h:36-101 | a response that does not parse, is incomplete or reports a failure clears table and relay; any other makes the link count as created, whatever connection there is, and every waiting call in the list moves on |
| `CallUser.User.FailRelayConn` | include/mimc/rts_connection_handler.h:103-111 | the responses, the cleared table and the reset relay of a relay connection that cannot be created |
| `CallUser.User.SendExceptInviteResponse` | src/rts_send_signal.cpp:65-81 | a response for every place in the list of a call whose invitation is not answered yet |
| `CallUser.User.RelayConnScanAndCallBack` | src/user.cpp:369-398 | a relay connection that is being created for too long: BYE_REQUESTs, the table cleared, the relay reset |
| `CallUser.User.RtsScanAndCallBack` | src/user.cpp:400-484 | the scan of the list that erases as it goes is the specified one, and then closes the relay after the last call |
| `CallUser.User.HandleXMDConnClosed` | src/user.cpp:1624-1645 | the relay is reset if it is its connection; then calls without any data channel end |
| `CallUser.User.CheckAndCloseCalls` | src/user.cpp:1647-1684 | only without a relay connection; the scan of the list that deletes as it goes is the specified one |
| `CallUser.User.Logout` | src/user.cpp:1559-1609 | the messages and callbacks of every connected call in the list, then an empty table |
| `Compound.PacketManager.HandleCompound` | src/packet_manager.cpp:326-462 | either kind of list; for NORMAL each callback gets a permutation, sorted by sequence, of exactly the packets routed to it, then exactly one acknowledgement with the list's maxSequence or a pull follows, the acknowledgement iff no callback made said no |
| `Compound.PacketManager.SortBySequence` | src/packet_manager.cpp:428-444 | a permutation in order of sequence numbers |
| `Compound.PacketManager.HandlePullNotification` | src/packet_manager.cpp:336-355 | the new flag, the callback and the acknowledgement of an EXCEED_COUNT_LIMIT list |
| `Compound.PacketManager.Collect` | src/packet_manager.cpp:358-425 | the packets of the list by route, in order, and the net-info messages handled on the way |
| `Compound.NotifiedOnce` | src/packet_manager.cpp:336-358 | after a notification is answered yes, every further EXCEED_COUNT_LIMIT list before the next NORMAL one is acknowledged without a callback |
| `Compound.AskedAgain` | src/packet_manager.cpp:336-358 | until then every such list asks again, and a refused one is not acknowledged |
| `Compound.HandleRun` | src/packet_manager.cpp:326-462 | a manager processing a run of lists has the flag and the outputs those two lemmas are about |
| `Compound.NormalMeans` | src/packet_manager.cpp:357-461 | what a NORMAL list leads to, by the fields of its packets: net info for this user is handled; a registered application gets all messages for this user (to no resource or its own) in one callback and all group messages in another, as often as they are in the list, in order of sequence numbers; then the list is acknowledged with its maxSequence iff no callback said no, else pulled while online |
| `Compound.DeliveredIffRouted` | src/packet_manager.cpp:357-445 | a registered application is handed a packet iff it is in the list, was not handled before, parses, and is a group message or a message for this user that is not net info; each kind in its own callback |
| `Compound.PullMeans` | src/packet_manager.cpp:336-355 | an EXCEED_COUNT_LIMIT list asks iff none was taken up before and a handler is registered, and is acknowledged unless the answer is no |
| `Compound.YesIsAcknowledged` | src/packet_manager.cpp:428-461 | a list whose callbacks say yes is acknowledged and not pulled |
| `Compound.DeliverTwice` | src/packet_manager.cpp:776-780 | at-most-once delivery fails: a list that was delivered and acknowledged is delivered again when it comes again |
| `RingQueue.SafeInterleaving` | demo/include/ring_queue.h:38-90 | one producer and one consumer, any interleaving of check, access and advance: popped items are a prefix of pushed items, at most capacity - 1 are stored, the consumer never reads the slot being written |
| `RingQueue.PushKeeps` | demo/include/ring_queue.h:38-47 | every step of push keeps the ring invariant |
| `RingQueue.PopKeeps` | demo/include/ring_queue.h:66-75 | every step of pop keeps it |
| `RingQueue.PushCompletes` | demo/include/ring_queue.h:38-47 | an undisturbed push stores its item, or waits at its check iff capacity - 1 items are stored |
| `RingQueue.PopCompletes` | demo/include/ring_queue.h:66-83 | an undisturbed pop hands out the oldest item, or finds the ring empty and changes nothing |
| `RingQueue.ThreadSafeQueue.Push` | demo/include/ring_queue.h:38-47 | the item is appended to the contents |
| `RingQueue.ThreadSafeQueue.Pop` | demo/include/ring_queue.h:66-75 | the first item is removed and returned, or false on an empty queue |
| `RingQueue.ThreadSafeQueue.Full` | demo/include/ring_queue.h:39 | the wait condition holds exactly when one slot is left |
| `RingQueue.ThreadSafeQueue.Size` | demo/include/ring_queue.h:92-98 | size() counts the items iff the indices have not wrapped or half the ring is in use |
| `Backoff.DelayWithinBounds` | src/backoff.cpp:47-80 | for every configuration, attempt and draw, and whatever a cast outside int yields: the delay lies between base and max(base, cap) iff, without jitter, cap is at least base, and with jitter, the cap is not reached or the cast of the second deviation does no harm |
| `Backoff.CastHarm` | src/backoff.cpp:65-69 | the cast harms only a deviation of 2^31 or more; for a base up to cap, iff it makes that negative |
| `Backoff.BoundsForEveryDraw` | src/backoff.cpp:47-80 | for an attempt that reaches the cap with any draw: all draws of millionths and all such casts keep the bounds iff cap * jitter * 0.999999 is below 2^31 |
| `Backoff.CastExample` | src/backoff.cpp:65-69 | a delay above the cap if the cast wraps round: base and cap 2^33, jitter 0.5, draw 0.6 |
| `Backoff.DelaysGrow` | src/backoff.cpp:35-80 | without jitter, for any base and cap that fit a long: the delays never decrease iff the factor is not negative, or base is 0, or there are fewer than two attempts, or cap is at most base * factor^2 (and the corresponding condition for a negative base) |
| `Backoff.DefaultDelays` | src/backoff.cpp:10-17 | with the default settings the delays double from 100 ms and stay at 6553600 ms from the 17th sleep on |
| `Backoff.JitteredDelays` | src/backoff.cpp:47-80 | six jittered delays between the bounds: the deviation is taken off for an even first decimal of the draw and added for an odd one |
| `Backoff.NegativeFactorShrinks` | src/backoff.cpp:47-80 | for example, with factor -2 the second delay is the cap and the third 400 ms |
| `Backoff.Backoff.Delay` | src/backoff.cpp:47-80 | the step-by-step computation gives the specified delay |
| `Backoff.Backoff.Sleep` | src/backoff.cpp:35-41 | sleeps for attempt min(attempts, maxAttempts) and counts up to maxAttempts |
| `Backoff.Backoff.SleepRun` | src/backoff.cpp:29-41 | the k-th sleep since a reset is base * factor^min(k, maxAttempts) clamped, if there is no jitter, and three or more delays never decrease iff the configuration meets that condition; with or without jitter the k-th delay keeps the bounds exactly as DelayWithinBounds says, and all do if cap * jitter * 0.999999 is below 2^31 |
| `Backoff.Backoff.WithParameters` | src/backoff.cpp:19-27 | the constructor with parameters sets every field but the number of attempts |

## Left out

- Sizes of 2^31 and more: `ByteSize` and the packet sizes are mathematical integers, and the size laws ask that they
  fit the C++ `int`; the 64 MB limit of a parse is not modelled.
- The refill paths of the coded stream: the buffer is one flat array, as in `ParseFromArray`.
- Cached sizes: a nested message is written with its current `ByteSize`, as after a `ByteSize` call on an unchanged
  message; nested messages are values, so aliasing between a message and its parts is not captured.
- Frame.Decode: handing the payload on to the parser of its command, and what the handlers of CONN, BIND and KICK do,
  are not modelled; a payload that does not parse makes the original return -1 later.
- Corruption of the frame's length field: it moves the trailer, so the checksum promises nothing.
- Key generation, Base64, SHA-1, and RC4's own key schedule: foreign code.
- Threads, locks and cancellation: each handler is one atomic step, except in the ring queue; in the P2P loop handlers
  may also run between its look at the state and its action.
- Stream and connection ids of the call session: a P2P connection may be closed at any time, and which calls have one is
  a parameter.
- Where a datagram is addressed, and how many ports `sendBurrowRequest` tries: the network may bring any packet to
  either end, so neither matters to what is proved.
- Repeated `startP2P` on one processor, and the table of all processors.
- CallLaws.RunInv: does not model logout within a run, because it reports a call that is listed twice closed twice;
  `CallReports.LogoutReports` says what it does to any table.
- Time stamps of calls and of the relay link, and the addresses inside signals.
- The order of equal sequence numbers after `std::sort`, which is not stable.
- `clear` of the ring queue, several producers (the full test is outside the lock), and the timed `pop`.
- Backoff.DelayWithinBounds: uses exact reals where the original uses double, and no overflow of long, because
  rounding is not the point.
- The remaining generated messages, the demos, the C interface, server lookup, connections and logging.
