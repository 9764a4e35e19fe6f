# Verified models of the streaming libraries

Dafny models of the protocol engines in this repository, with proofs of what they promise. Each `.dfy` file
holds one module; `dafny verify dfyconfig.toml` checks all of them.

- **RTMP chunk stream** (`RtmpChunkStream`, `RtmpHeaders`, `RtmpRoundTrip`, `RtmpRun`, `RtmpEndpoint`,
  `RtmpConnection`): what `RTMP_SendPacket` puts on the wire and what `RTMP_ReadPacket` makes of it. The two
  machines are related channel by channel, so the round trip holds for every interleaving of the channels'
  chunks. `RtmpEndpoint` is the code as it runs, overwriting the body it sends, and `RtmpConnection` joins two
  such objects; the other modules work on values.
- **RTCP compound packets** (`RtcpFormat`, `RtcpGrammar`, `RtcpLayout`, `RtcpRoundTrip`, `RtcpContents`,
  `RtcpCompound`, `RtcpCalls`, `RtcpBuilder`, `RtcpOversize`, `RtcpReader`, `RtcpDelivery`,
  `RtcpPacketBuilder`): the builder with its size predictions and the verdict on each call, the validating
  parser, the SDES cursor, what a receiver reads out of the finished bytes, and the calls that drive the builder.
- **AMF0** (`AmfIntegers`, `AmfCodec`, `AmfTypes`, `AmfEncoder`, `AmfExact`, `AmfWidth`, `AmfBuffers`): encoder,
  decoder with resynchronisation, the table of types, and how a short buffer truncates an object. The width
  of a C `long`, 32 bits on two of the three targets of librtmp, is a parameter of the decoder.
- **Hash tables** (`HashTableSpec`, `HashTable`): chains, list and cursor as linked nodes, refining a map
  and an insertion-order sequence. `RTPHashTable` is the same code with the element as its own key.
- **RTCP scheduler** (`RtcpSchedule`, `RtcpScheduler`): timer reconsideration over runs of calls, with times
  as reals.
- **Concurrency** (`JThread`, `JThreadOutcomes`, `ExternalTransmitter`, `TransmitterOutcomes`): the thread start
  handshake and the wake-up of a waiting receiver, as interleaved steps of any number of calls, and what the
  result of a call tells about the run.
- **RTP packets** (`RtpPacket`, `RtpPacketBuilder`, `ReceiveQueue`): building and parsing, the builder's
  counters and CSRC list, and the sorted receive queue.
- **Block TEA and rotation** (`Xxtea`, `Rotation`).

`Bytes` and `Arithmetic` hold what the modules share: bytes, machine words as integers of bounded range,
byte-order codecs, and facts about products and quotients.

Where the code does not do what its description suggests, the model follows the code, a lemma shows a
concrete case, and another proves the exact condition under which the property holds:

- a repeated RTMP timestamp is doubled (`RepeatedTimestampDoubles`; exact: `TimestampsExact`);
- the first SDES source can exceed the packet limit (`FirstSourceCanOverrun`; exact: `RunsFit`);
- one SDES packet can outgrow its length field (`LongSdesMisread`; exact: `CompoundRoundTrip`);
- a header extension of 65536 words is sent as an empty one (`LongExtensionVanishes`; exact:
  `ExtensionReturns`);
- a null AMF property is lost (`NullPropertyIsLost`; exact: `RoundTripIffPlain`);
- a small number ends a list of nameless AMF values (`ValuesRead`; exact: `ValuesReadIff`);
- on 32-bit targets the AMF decoder accepts long strings that are not there (`FiveBytesGoAstray`; exact:
  `LongStringExact`);
- on probation the order in which packets arrive decides which are kept (`LowestDecides`; exact:
  `ArrivalOrderIrrelevant` and `OrderIrrelevantIffEarly`), and a duplicate evicts a packet
  (`DuplicateCostsOldest`; exact: `DuplicateHarmless`);
- an immediate BYE follows a packet at once (`ImmediateByeFollowsAtOnce`; exact: `ApartUnlessImmediate`).

## Model

| member | source | states |
|---|---|---|
| `RtmpRun.ConnectionRoundTrip` | librtmp/src/main/jni/librtmp/rtmp.c:2640-2785 | For every run of sendable packets on a fresh connection, reading the bytes of all sends gives back as many packets with the same channels, types, lengths and bodies, nothing left over; the timestamps are the same if and only if no first chunk was compressed to type 3 while the last timestamp field of its channel differed from its own difference |
| `RtmpConnection.Exchange` | librtmp/src/main/jni/librtmp/rtmp.c:2640-3109 | Two RTMP objects: what one sends with RTMP_SendPacket, message by message, over HTTP or not, the other reads with RTMP_ReadPacket to the end of the stream, delivering the messages in order with channel, type and body; the timestamps are those sent if and only if the run is coherent |
| `RtmpConnection.SendMessages` | librtmp/src/main/jni/librtmp/rtmp.c:2934-3109 | A run of sends from buffers with room for a header in front puts the bytes of the run on the wire |
| `RtmpConnection.ReadMessages` | librtmp/src/main/jni/librtmp/rtmp.c:929-944 | The reading loop, which passes the packet of the read before to the next one, ends with the stream consumed and delivers exactly what is expected |
| `RtmpRun.SendThenRead` | librtmp/src/main/jni/librtmp/rtmp.c:2934-3109 | The bytes of any run are consumed exactly, whatever follows them and whatever packets the caller passes in, and deliver the messages in order with the timestamps that both ends' channel tables determine |
| `RtmpRun.ContentSurvives` | librtmp/src/main/jni/librtmp/rtmp.c:2701-2727 | Channel, type and body of every delivered packet are those sent, with or without coherent timestamps |
| `RtmpRun.RunTimestampsExact` | librtmp/src/main/jni/librtmp/rtmp.c:2768-2779 | Over all channels of a run the accumulated timestamps are the sender's exactly when the run is coherent |
| `RtmpRun.RunInterleaves` | librtmp/src/main/jni/librtmp/rtmp.c:3045-3080 | A run of sends, one message after the other, is one of the interleavings of its channels' chunk streams |
| `RtmpRun.ScriptOfRun` | librtmp/src/main/jni/librtmp/rtmp.c:2768-2782 | Reading a sequential run completes its messages in the order they were sent |
| `RtmpRoundTrip.ReaderDemultiplexes` | librtmp/src/main/jni/librtmp/rtmp.c:2684-2688 | However the chunks of different channels are interleaved, each channel delivers exactly its own messages in its own order and all bytes are consumed |
| `RtmpRoundTrip.ReaderFollowsScript` | librtmp/src/main/jni/librtmp/rtmp.c:2640-2785 | The simulation over all channels is kept by every chunk read; a run of reads delivers exactly the messages whose last chunk was read |
| `RtmpRoundTrip.ScriptPerChannel` | librtmp/src/main/jni/librtmp/rtmp.c:2740-2782 | In every interleaving the completed messages of a channel are its messages in order |
| `RtmpRoundTrip.ReadStep` | librtmp/src/main/jni/librtmp/rtmp.c:2640-2785 | Reading the next chunk of a channel related to the sender succeeds, consumes exactly that chunk, advances the relation, leaves other channels alone and completes a message exactly at its last chunk |
| `RtmpRoundTrip.OpeningHeader` | librtmp/src/main/jni/librtmp/rtmp.c:2681-2738 | The compressed first header of a message, read against the remembered packet of its channel, starts a packet with the message's attributes |
| `RtmpRoundTrip.ContinuationHeader` | librtmp/src/main/jni/librtmp/rtmp.c:2684-2688 | A type 3 header in the middle of a message resumes the partial packet unchanged |
| `RtmpRoundTrip.PayloadStep` | librtmp/src/main/jni/librtmp/rtmp.c:2740-2782 | Appending a chunk's payload and remembering the packet keeps the channel's relation and turns the timestamp absolute on completion |
| `RtmpRoundTrip.HeaderDecodes` | librtmp/src/main/jni/librtmp/rtmp.c:2701-2727 | The fields of every header type, with or without an extended timestamp, decode to what was encoded |
| `RtmpRoundTrip.BasicDecodes` | librtmp/src/main/jni/librtmp/rtmp.c:2654-2677 | The one, two or three byte basic header of a channel from 2 to 65599 decodes to its header type and channel |
| `RtmpRoundTrip.TimestampsExact` | librtmp/src/main/jni/librtmp/rtmp.c:2953-2955 | On one channel the reader's timestamps equal the sender's if and only if every type 3 first chunk repeats the last transmitted field |
| `RtmpRoundTrip.TypeThreeMeansUnchanged` | librtmp/src/main/jni/librtmp/rtmp.c:2946-2957 | A message given as LARGE or MEDIUM is compressed to type 3 only when length, type and timestamp all repeat, so its difference is 0 |
| `RtmpRoundTrip.RepeatedTimestampDoubles` | librtmp/src/main/jni/librtmp/rtmp.c:2766-2779 | The timestamp property does fail: after a full header at time 5 a like message at the same time is reported at 10 |
| `RtmpEndpoint.RTMP.SendPacket` | librtmp/src/main/jni/librtmp/rtmp.c:2934-3109 | Although continuation headers overwrite the body in place, the bytes sent are the chunks of the original body; the top two bits of the first of them are those of a header shortened exactly where length, type and timestamp repeat; the channel table remembers the packet; only an illegal header type fails |
| `RtmpEndpoint.RTMP.Compress` | librtmp/src/main/jni/librtmp/rtmp.c:2946-2957 | The in-place header compression picks the header type that fits the message and the remembered packet, and their 32-bit timestamp difference |
| `RtmpHeaders.ShortenedExactly` | librtmp/src/main/jni/librtmp/rtmp.c:2946-2957 | When a header is shortened, both ways: a full header, or one without a predecessor, stays as asked; a MEDIUM request goes out as SMALL if and only if length and type repeat and the timestamp does not, as MINIMUM if and only if all three repeat; a SMALL request becomes MINIMUM if and only if the timestamp repeats |
| `RtmpHeaders.RepeatWithNewTime` | librtmp/src/main/jni/librtmp/rtmp.c:2948-2951 | After 100 bytes of type 8 at time 1000 on channel 4, 100 more at time 1023 start with the four bytes 132, 0, 0, 23 |
| `RtmpHeaders.FirstByte` | librtmp/src/main/jni/librtmp/rtmp.c:2993-3005 | The top two bits of the first byte sent are the header type that these conditions demand |
| `RtmpHeaders.FirstHeaderBytes` | librtmp/src/main/jni/librtmp/rtmp.c:2966-3026 | The whole first header: one to three bytes of channel, 11, 7, 3 or 0 of message header, and the time once more in four bytes exactly when a shown time does not fit in three |
| `RtmpHeaders.MessageBytes` | librtmp/src/main/jni/librtmp/rtmp.c:3013-3026 | Time, body length and type highest byte first, stream id lowest byte first, each where the header type has it |
| `RtmpHeaders.BasicBytes` | librtmp/src/main/jni/librtmp/rtmp.c:2979-3011 | Channels up to 63 take one byte, up to 319 two and the others three, the third the more significant |
| `RtmpHeaders.TimeSent` | librtmp/src/main/jni/librtmp/rtmp.c:2953-2969 | What is sent added to the remembered timestamp gives the timestamp of the message, modulo 2^32; a full header carries the timestamp itself |
| `RtmpHeaders.ContinuationShape` | librtmp/src/main/jni/librtmp/rtmp.c:3065-3079 | Every further chunk starts with a type 3 header on the channel and all but the last carry a whole chunk |
| `RtmpEndpoint.RTMP.ChunkLoop` | librtmp/src/main/jni/librtmp/rtmp.c:3045-3080 | The loop emits header and body of every chunk, straight or into the HTTP buffer, which is never overrun |
| `RtmpEndpoint.RTMP.OneChunk` | librtmp/src/main/jni/librtmp/rtmp.c:3048-3079 | One turn sends the current header with its payload and leaves the next header directly in front of the unsent body |
| `RtmpEndpoint.RTMP.SendChunks` | librtmp/src/main/jni/librtmp/rtmp.c:3034-3087 | The HTTP buffer of tlen bytes has room for everything that is copied, and what is written out is the same as without it |
| `RtmpEndpoint.PendingLength` | librtmp/src/main/jni/librtmp/rtmp.c:3035-3044 | A message takes at most its header, its body and one continuation header for every chunk, the bound behind tlen |
| `RtmpEndpoint.NextHeader` | librtmp/src/main/jni/librtmp/rtmp.c:3065-3079 | The next header is written over bytes already sent and never over unsent ones |
| `RtmpEndpoint.WriteFirstHeader` | librtmp/src/main/jni/librtmp/rtmp.c:2988-3026 | The first header lies directly in front of the body, starts at most 18 bytes before it and has the layout of section 5.3.1 of Adobe RTMP 1.0 |
| `RtmpEndpoint.WriteBasicHeader` | librtmp/src/main/jni/librtmp/rtmp.c:2993-3011 | The basic header written byte by byte is the one of the chunk format |
| `RtmpEndpoint.EncodeInt32LE` | librtmp/src/main/jni/librtmp/rtmp.c:2628-2638 | Writes the little-endian bytes of the word and nothing else |
| `RtmpEndpoint.RTMP.ReadPacket` | librtmp/src/main/jni/librtmp/rtmp.c:2640-2785 | One call reads one chunk exactly as the value model says, and returns false exactly when the stream ends inside it |
| `RtmpHeaders.HeaderRead` | librtmp/src/main/jni/librtmp/rtmp.c:2681-2738 | Whatever the bytes, the fields present in a header come from where the format has them, the others from the packet resumed, and a missing body is allocated |
| `RtmpHeaders.HeaderCutOff` | librtmp/src/main/jni/librtmp/rtmp.c:2649-2721 | Reading a header fails if and only if the bytes end before it does |
| `RtmpHeaders.ChunkCutOff` | librtmp/src/main/jni/librtmp/rtmp.c:2740-2761 | A chunk takes as much of the missing body as a chunk can carry, and reading it fails if and only if the bytes end before that |
| `RtmpEndpoint.RTMP.ReadChunkHeader` | librtmp/src/main/jni/librtmp/rtmp.c:2649-2738 | Basic header, message header, extended timestamp and allocation, each byte consumed once |
| `RtmpEndpoint.RTMP.ReadBasic` | librtmp/src/main/jni/librtmp/rtmp.c:2649-2677 | Header type and channel from one to three bytes, or no channel when the stream ends |
| `RtmpEndpoint.RTMP.ApplyHeader` | librtmp/src/main/jni/librtmp/rtmp.c:2701-2717 | The fields present in a header of this size replace those of the packet, the others stay |
| `RtmpEndpoint.RTMP.Keep` | librtmp/src/main/jni/librtmp/rtmp.c:2763-2782 | A partial packet is remembered whole; a complete one becomes absolute in time and its remembered copy is reset |
| `Bytes.WordAtLe32` | librtmp/src/main/jni/librtmp/rtmp.c:2619-2626 | The little-endian decoder returns the word wherever its encoding sits in a buffer |
| `Bytes.Digits` | librtmp/src/main/jni/librtmp/amf.c:136-170 | The bytes written are the digits of the word to base 256, the highest first, or last in the little-endian case |
| `Bytes.DigitsRead` | librtmp/src/main/jni/librtmp/amf.c:39-63 | A word read is the number its digits make |
| `RtcpCompound.CompoundRoundTrip` | jrtp/src/main/jni/JRTPLIB/src/rtcpcompoundpacketbuilder.cpp:567-810 | The receiver's parser finds exactly the packets the builder listed, and each passes its own format check, if and only if every SDES packet fits the 16-bit length field |
| `RtcpOversize.LongSdesMisread` | jrtp/src/main/jni/JRTPLIB/src/rtcpcompoundpacketbuilder.cpp:657-729 | The condition can fail: within any limit from 300000 bytes on a receiver report and 31 sources with 34 items of 257 bytes each are accepted, and the parser does not find the packets that were laid out |
| `RtcpCompound.BuiltPacketParses` | jrtp/src/main/jni/JRTPLIB/src/rtcpcompoundpacket.cpp:105-198 | Every run of builder calls that does not overrun, under a limit from 600 to 2^18 bytes, produces a compound packet within the limit that parses to the builder's own list, whatever the number of blocks and sources |
| `RtcpCompound.EndSizeExact` | jrtp/src/main/jni/JRTPLIB/src/rtcpcompoundpacketbuilder.cpp:577-730 | EndBuild writes precisely appsize + byesize + the predicted report and SDES sizes |
| `RtcpCompound.PredictionIsActual` | jrtp/src/main/jni/JRTPLIB/src/rtcpcompoundpacketbuilder.h:174-211 | Every call that succeeds makes the total exactly what was tested against the limit, except the first source, whose predicted size is 0 |
| `RtcpCompound.FitKeptExactly` | jrtp/src/main/jni/JRTPLIB/src/rtcpcompoundpacketbuilder.h:346-368 | A call keeps the total within the limit if and only if it is not an accepted first source with fewer than 12 bytes free |
| `RtcpCompound.RunsFit` | jrtp/src/main/jni/JRTPLIB/src/rtcpcompoundpacketbuilder.cpp:261-281 | Along every run the contents stay valid, and they end within the limit if and only if no first source overruns on the way |
| `RtcpCompound.NeverShrinks` | jrtp/src/main/jni/JRTPLIB/src/rtcpcompoundpacketbuilder.cpp:154-521 | No call makes the compound packet smaller, within the limit or beyond it |
| `RtcpCompound.SourceSettles` | jrtp/src/main/jni/JRTPLIB/src/rtcpcompoundpacketbuilder.h:346-368 | Once there is a source, no later call can overrun |
| `RtcpCompound.ReportThenSourceFits` | jrtp/src/main/jni/JRTPLIB/src/rtcppacketbuilder.cpp:120-186 | The order of BuildNextPacket and BuildBYEPacket, a report and then the own source, never overruns whatever is added afterwards |
| `RtcpCompound.FirstSourceCanOverrun` | jrtp/src/main/jni/JRTPLIB/src/rtcpcompoundpacketbuilder.h:352-353 | The limit can be exceeded: a receiver report and an APP packet that fill 600 bytes leave the first source accepted and the total at 612 |
| `RtcpCompound.RefusalChangesNothing` | jrtp/src/main/jni/JRTPLIB/src/rtcpcompoundpacketbuilder.cpp:221-259 | A refused call leaves the contents as they were |
| `RtcpCalls.CallJudged` | jrtp/src/main/jni/JRTPLIB/src/rtcpcompoundpacketbuilder.cpp:154-521 | The verdict on every call, both ways: the first objection to its arguments or to the state, in the order the code has them; otherwise accepted if and only if the contents with it are within the limit, a first source without its own bytes, and refused for lack of room if not; accepted it leaves the contents with exactly what it was given, refused as they were |
| `RtcpCalls.RunGathers` | jrtp/src/main/jni/JRTPLIB/src/rtcpcompoundpacketbuilder.cpp:154-521 | Over every run the contents grow by the blocks, APP and BYE packets of the accepted calls, in order, and their sources with the items added while each was last; refused calls leave no trace |
| `RtcpCalls.ReportStays` | jrtp/src/main/jni/JRTPLIB/src/rtcpcompoundpacketbuilder.cpp:160-161 | The report is the first one accepted, and no other is accepted after it |
| `RtcpCompound.PacketsWellBuilt` | jrtp/src/main/jni/JRTPLIB/src/rtcpcompoundpacketbuilder.cpp:595-808 | Every packet laid out carries a header that states its type and length and passes its type's format check; a report comes first |
| `RtcpCompound.ByePacketKnown` | jrtp/src/main/jni/JRTPLIB/src/rtcpcompoundpacketbuilder.cpp:395-465 | The BYE packet built for any sources and reason is well formed and aligned |
| `RtcpCompound.AppPacketKnown` | jrtp/src/main/jni/JRTPLIB/src/rtcpcompoundpacketbuilder.cpp:467-521 | The APP packet built is well formed |
| `RtcpLayout.ReportPacketsExact` | jrtp/src/main/jni/JRTPLIB/src/rtcpcompoundpacketbuilder.h:174-211 | Report packets split at 31 blocks take exactly the predicted bytes |
| `RtcpLayout.SdesPacketsExact` | jrtp/src/main/jni/JRTPLIB/src/rtcpcompoundpacketbuilder.h:305-323 | SDES packets split at 31 sources take exactly the predicted bytes |
| `RtcpRoundTrip.ReportPacketsKnown` | jrtp/src/main/jni/JRTPLIB/src/rtcpcompoundpacketbuilder.cpp:597-655 | Every report packet passes the check of the SR or RR class |
| `RtcpRoundTrip.SdesPacketKnown` | jrtp/src/main/jni/JRTPLIB/src/rtcpcompoundpacketbuilder.cpp:657-729 | The SDES validator accepts every SDES packet written and walks exactly its chunks and items |
| `RtcpRoundTrip.ItemsWalk` | jrtp/src/main/jni/JRTPLIB/src/rtcpsdespacket.cpp:83-128 | Walking the bytes of a chunk finds its items in order up to the end marker and the aligned start of the next chunk |
| `RtcpRoundTrip.ChunksWalk` | jrtp/src/main/jni/JRTPLIB/src/rtcpsdespacket.cpp:83-142 | Walking the bytes of several chunks finds each of them |
| `RtcpContents.SdesReadBack` | jrtp/src/main/jni/JRTPLIB/src/rtcpcompoundpacketbuilder.cpp:657-729 | Read where the walk over an SDES packet finds them, SSRCs in network order and items are those of the sources the packet was written from |
| `RtcpContents.ReportsReadBack` | jrtp/src/main/jni/JRTPLIB/src/rtcpcompoundpacketbuilder.cpp:597-655 | The report packets give back sender, sender info and all blocks in order, whatever their number |
| `RtcpContents.ByeReadBack` | jrtp/src/main/jni/JRTPLIB/src/rtcpcompoundpacketbuilder.cpp:395-465 | A BYE packet states its sources, then the length and text of the reason, padded with zeros to a multiple of four |
| `RtcpContents.AppReadBack` | jrtp/src/main/jni/JRTPLIB/src/rtcpcompoundpacketbuilder.cpp:467-521 | An APP packet states subtype, sender, name and data |
| `RtcpContents.ContentsReadBack` | jrtp/src/main/jni/JRTPLIB/src/rtcpcompoundpacketbuilder.cpp:595-808 | Everything the builder holds is read back from the packets it lays out: report with sender info and blocks, sources with items, APP and BYE packets, each in order |
| `RtcpContents.CutOutPackets` | jrtp/src/main/jni/JRTPLIB/src/rtcpcompoundpacketbuilder.cpp:595-808 | The list of the builder cuts the finished bytes into exactly those packets |
| `RtcpDelivery.Deliver` | jrtp/src/main/jni/JRTPLIB/src/rtcpsdespacket.h:162-302 | From builder to receiver: of a finished build within 2^18 bytes the parser accepts the buffer, and GetChunkSSRC, GetItemType and GetItemData over its SDES packets return the SSRCs, types and values of the sources that were added, in order |
| `RtcpDelivery.Listen` | jrtp/src/main/jni/JRTPLIB/src/rtcpsdespacket.h:162-302 | Over one SDES packet the accessors return what lies where the walk finds chunks and items |
| `RtcpFormat.ParseOfPackets` | jrtp/src/main/jni/JRTPLIB/src/rtcpcompoundpacket.cpp:105-198 | Self-describing packets laid end to end, a report first, parse to exactly themselves |
| `RtcpFormat.HeaderTellsTruth` | jrtp/src/main/jni/JRTPLIB/src/rtcpcompoundpacketbuilder.cpp:649-653 | The 16-bit length field states the packet's length if and only if the packet has at most 2^18 bytes |
| `RtcpFormat.FitMeansSelfDescribing` | jrtp/src/main/jni/JRTPLIB/src/rtcpcompoundpacket.cpp:120-160 | Headed packets that fit the length field describe themselves |
| `RtcpFormat.ParsedMeansSelfDescribing` | jrtp/src/main/jni/JRTPLIB/src/rtcpcompoundpacket.cpp:120-160 | If the parser finds packets where they were laid, their length fields were right |
| `RtcpGrammar.ParsesExactly` | jrtp/src/main/jni/JRTPLIB/src/rtcpcompoundpacket.cpp:105-198 | The parser finds a list of packets if and only if they tile the data: each of version 2 and as long as its header says, only the last padded, and a report first |
| `RtcpGrammar.KnownExactly` | jrtp/src/main/jni/JRTPLIB/src/rtcpsdespacket.cpp:44-143 | A packet passes the check of its class if and only if its padding is well formed and the rest is what its type demands: as many blocks, sources or chunks as the header says, a reason that fits, an APP packet of twelve bytes |
| `RtcpGrammar.SdesExactly` | jrtp/src/main/jni/JRTPLIB/src/rtcpsdespacket.cpp:60-143 | The walk finds some chunks if and only if they make the packet up: items with a type other than zero, an end marker and the next multiple of four |
| `RtcpBuilder.RTCPCompoundPacketBuilder.InitBuild` | jrtp/src/main/jni/JRTPLIB/src/rtcpcompoundpacketbuilder.cpp:108-152 | Starts a build only when none is running or finished and the limit is at least 600 |
| `RtcpBuilder.RTCPCompoundPacketBuilder.StartReport` | jrtp/src/main/jni/JRTPLIB/src/rtcpcompoundpacketbuilder.cpp:154-219 | Sender and receiver reports: contents and status of the call, with the remaining size computed modulo 2^64 |
| `RtcpBuilder.RTCPCompoundPacketBuilder.AddReportBlock` | jrtp/src/main/jni/JRTPLIB/src/rtcpcompoundpacketbuilder.cpp:221-259 | Contents and status of the call |
| `RtcpBuilder.RTCPCompoundPacketBuilder.AddSDESSource` | jrtp/src/main/jni/JRTPLIB/src/rtcpcompoundpacketbuilder.cpp:261-281 | Contents and status of the call, with the size prediction that is 0 for an empty list |
| `RtcpBuilder.RTCPCompoundPacketBuilder.AddSDESNormalItem` | jrtp/src/main/jni/JRTPLIB/src/rtcpcompoundpacketbuilder.cpp:283-346 | Contents and status of the call; an item type outside the seven is refused once there is a source |
| `RtcpBuilder.RTCPCompoundPacketBuilder.AddSDESPrivateItem` | jrtp/src/main/jni/JRTPLIB/src/rtcpcompoundpacketbuilder.cpp:349-393 | Contents and status of the call; prefix, length byte and value share 255 bytes |
| `RtcpBuilder.RTCPCompoundPacketBuilder.AddBYEPacket` | jrtp/src/main/jni/JRTPLIB/src/rtcpcompoundpacketbuilder.cpp:395-465 | Contents and status of the call; the packet is padded to 32 bits |
| `RtcpBuilder.RTCPCompoundPacketBuilder.AddAPPPacket` | jrtp/src/main/jni/JRTPLIB/src/rtcpcompoundpacketbuilder.cpp:467-521 | Contents and status of the call, with the three argument errors |
| `RtcpBuilder.RTCPCompoundPacketBuilder.EndBuild` | jrtp/src/main/jni/JRTPLIB/src/rtcpcompoundpacketbuilder.cpp:567-810 | The buffer holds the packets of the contents end to end, their list is the one pushed, the length is the predicted one, and the builder is empty again |
| `RtcpBuilder.RTCPCompoundPacketBuilder.PutReports` | jrtp/src/main/jni/JRTPLIB/src/rtcpcompoundpacketbuilder.cpp:597-655 | The report loop writes report packets of at most 31 blocks and lists them |
| `RtcpBuilder.RTCPCompoundPacketBuilder.PutSdesPackets` | jrtp/src/main/jni/JRTPLIB/src/rtcpcompoundpacketbuilder.cpp:657-729 | The SDES loops write packets of at most 31 chunks, items, end markers and padding included, and list them |
| `RtcpReader.RTCPCompoundPacket.ParseData` | jrtp/src/main/jni/JRTPLIB/src/rtcpcompoundpacket.cpp:105-198 | The parser's loop computes the packet list of the specification or fails with nothing listed |
| `RtcpReader.Validate` | jrtp/src/main/jni/JRTPLIB/src/rtcpsdespacket.cpp:44-143 | The validating loops accept exactly the packets whose chunks and items can be walked to the end of the unpadded packet |
| `RtcpReader.ValidateItems` | jrtp/src/main/jni/JRTPLIB/src/rtcpsdespacket.cpp:88-128 | One chunk: the offset of the next, or a refusal where an item overruns |
| `RtcpReader.RTCPSDESPacket.Traverse` | jrtp/src/main/jni/JRTPLIB/src/rtcpsdespacket.h:162-244 | The chunk and item cursor visits exactly the chunks and items the validator walked, each once, in order |
| `RtcpReader.RTCPSDESPacket.GotoFirstChunk` | jrtp/src/main/jni/JRTPLIB/src/rtcpsdespacket.h:162-173 | On a known packet with chunks the cursor stands on the first walked chunk and its first item |
| `RtcpReader.RTCPSDESPacket.GotoNextChunk` | jrtp/src/main/jni/JRTPLIB/src/rtcpsdespacket.h:175-200 | The cursor moves to the next walked chunk, or reports that there is none |
| `RtcpReader.RTCPSDESPacket.GotoFirstItem` | jrtp/src/main/jni/JRTPLIB/src/rtcpsdespacket.h:212-223 | The cursor returns to the first item, if the chunk has one |
| `RtcpReader.RTCPSDESPacket.GotoNextItem` | jrtp/src/main/jni/JRTPLIB/src/rtcpsdespacket.h:225-244 | The cursor moves to the next walked item, or stays at the last |
| `RtcpReader.RTCPSDESPacket.GetItemData` | jrtp/src/main/jni/JRTPLIB/src/rtcpsdespacket.h:279-302 | Item values lie inside the unpadded packet |
| `RtcpReader.RTCPSDESPacket.GetPRIV` | jrtp/src/main/jni/JRTPLIB/src/rtcpsdespacket.h:304-379 | Prefix and value of a PRIV item lie in its value, and prefix + value + 1 is its length exactly when the stored prefix length fits |
| `RtcpPacketBuilder.OpeningFits` | jrtp/src/main/jni/JRTPLIB/src/rtcppacketbuilder.cpp:120-186 | Report, own source and CNAME always fit, whatever the CNAME: the opening never ends with a packet filled too soon |
| `RtcpPacketBuilder.FirstBlockFits` | jrtp/src/main/jni/JRTPLIB/src/rtcppacketbuilder.cpp:188-204 | After the opening a first report block always fits, so BuildNextPacket cannot fail for lack of room there |
| `RtcpPacketBuilder.ByeFits` | jrtp/src/main/jni/JRTPLIB/src/rtcppacketbuilder.cpp:712-725 | The BYE with a reason of up to 255 bytes always fits; the compound takes at most 560 bytes |
| `RtcpPacketBuilder.ByeParses` | jrtp/src/main/jni/JRTPLIB/src/rtcppacketbuilder.cpp:626-736 | The receiver finds a report, an SDES and a BYE packet, each well formed |
| `RtcpPacketBuilder.BuildBYEPacket` | jrtp/src/main/jni/JRTPLIB/src/rtcppacketbuilder.cpp:626-736 | Succeeds for every limit from 600 bytes on, stays within it, writes exactly the report, the SDES packet and the BYE packet with the reason cut at 255 bytes, and its bytes parse to its own packet list |
| `AmfEncoder.EncodeThenDecode` | librtmp/src/main/jni/librtmp/amf.c:862-893 | A non-NULL encoding of an object of named numbers, booleans, strings of any length and nested objects decodes to that object recursively cut to property prefixes, consuming exactly the bytes written whatever follows; with one byte more room than the wire form the object is whole |
| `AmfEncoder.WholeIffRoom` | librtmp/src/main/jni/librtmp/amf.c:358-405 | An object comes out whole if and only if its wire form leaves a byte of the buffer unused |
| `AmfEncoder.KeptPropsWritten` | librtmp/src/main/jni/librtmp/amf.c:862-893 | What the size-limited encoder writes is the wire form of a recursive truncation of its argument |
| `AmfCodec.PropsRead` | librtmp/src/main/jni/librtmp/amf.c:1062-1106 | The decoder reads a plain object's wire form back, consuming exactly it |
| `AmfCodec.PropertyReads` | librtmp/src/main/jni/librtmp/amf.c:597-781 | A named property decodes to itself, and its first bytes are no end mark |
| `AmfCodec.ValueReads` | librtmp/src/main/jni/librtmp/amf.c:627-778 | Every plain value decodes to itself behind its type byte |
| `AmfCodec.ValuesRead` | librtmp/src/main/jni/librtmp/amf.c:1062-1106 | Nameless values in a row, nulls among them, decode in order up to the first number whose encoding starts like an end mark |
| `AmfCodec.ValuesReadIff` | librtmp/src/main/jni/librtmp/amf.c:1077-1082 | All nameless values, nulls among them, come back if and only if none is a number whose bytes begin 0, 9 |
| `AmfCodec.ResyncFindsFirstMark` | librtmp/src/main/jni/librtmp/amf.c:1070-1103 | After a bad property decoding succeeds if and only if an end mark still follows, and stops behind the first |
| `AmfCodec.NullPropertyIsLost` | librtmp/src/main/jni/librtmp/amf.c:362-385 | A null property is written without its name and, followed by at most 1278 bytes, is lost on decoding without an error: its type byte and the end mark read as the length 1280 of a name that is not there |
| `AmfExact.RoundTripIffPlain` | librtmp/src/main/jni/librtmp/amf.c:862-893 | An encodable object comes back from its wire form, whatever follows it, if and only if every property at every depth has a name of 1 to 65535 bytes and is not null |
| `AmfExact.NullNeverComesBack` | librtmp/src/main/jni/librtmp/amf.c:362-385 | Whatever follows it, an object written with a null property is not read back as itself from the bytes written |
| `AmfExact.ObjectCosts` | librtmp/src/main/jni/librtmp/amf.c:1062-1106 | An object read up to an end mark has cost at least two length bytes, the name and the value of every property read |
| `AmfExact.WritesLess` | librtmp/src/main/jni/librtmp/amf.c:362-373 | The encoder writes that much only for plain objects |
| `AmfCodec.DecodeProperty` | librtmp/src/main/jni/librtmp/amf.c:597-781 | A successful property decode consumes at least one byte and at most the bytes there are; with a long of 64 bits it never leaves its input; with DecodeObject it terminates by remaining bytes and error flag |
| `AmfTypes.PropertyFromBytes` | librtmp/src/main/jni/librtmp/amf.c:597-781 | A property from its bytes: a failure without a well-formed name and a type byte behind it, and otherwise what the type byte says of the bytes that follow; types 5, 6 and 13 give a null and end there, type 11 the date of ten bytes, and every type but these, the others modelled and the three left out fails |
| `AmfTypes.BodyRead` | librtmp/src/main/jni/librtmp/amf.c:642-778 | The same for the switch alone, with every type by its number |
| `AmfTypes.UndefinedIsKept` | librtmp/src/main/jni/librtmp/amf.c:683-687 | The object 0, 1, 97, 6, 0, 0, 9 has a null property of name a |
| `AmfTypes.WrittenAs` | librtmp/src/main/jni/librtmp/amf.c:172-269 | The bytes of each kind of value, with the type numbers and the length bytes of short and long strings |
| `AmfTypes.NameWritten` | librtmp/src/main/jni/librtmp/amf.c:364-373 | A name follows its length modulo 65536 in two bytes; an empty one is left out |
| `AmfTypes.RoomNeeded` | librtmp/src/main/jni/librtmp/amf.c:172-269 | The room each kind of value needs, both ways: a short string the room of a long one, a null a byte more than it writes |
| `AmfTypes.PropertyRoom` | librtmp/src/main/jni/librtmp/amf.c:358-405 | The room a property needs, both ways |
| `AmfTypes.TakesAllThatFit` | librtmp/src/main/jni/librtmp/amf.c:872-887 | The first property left out is one that no longer fits in what the ones before it leave |
| `AmfCodec.DecodeObject` | librtmp/src/main/jni/librtmp/amf.c:1062-1106 | A successful object decode consumes at most the bytes there are; with a long of 64 bits it never leaves its input, with 32 bits leaving it is an outcome of its own |
| `AmfWidth.LongStringExact` | librtmp/src/main/jni/librtmp/amf.c:735-745 | Of four bytes or more both widths decode the same long string if and only if its stored length is below 2^31 - 4; otherwise 64 bits refuse it and 32 bits take bytes that are not there |
| `AmfWidth.AcceptedExactly` | librtmp/src/main/jni/librtmp/amf.c:738-739 | The 64-bit test passes exactly strings that fit, the 32-bit test those and every one whose length wraps around |
| `AmfWidth.ConsumesWithin` | librtmp/src/main/jni/librtmp/amf.c:738-741 | What an accepted long string consumes lies between 0 and the bytes there are if and only if the stored length is below 2^31 - 4 or at least 2^32 - 4 |
| `AmfWidth.FiveBytesGoAstray` | librtmp/src/main/jni/librtmp/amf.c:735-781 | The bytes 12, 255, 255, 255, 240 are refused with 64 bits; with 32 bits the string is accepted, 16 bytes seem to be left of 4 and the call returns -11 |
| `AmfWidth.ObjectAgrees` | librtmp/src/main/jni/librtmp/amf.c:1062-1106 | Over any input the 32-bit decoder reads what the 64-bit decoder reads, unless it goes astray |
| `AmfBuffers.EncodeObjectAt` | librtmp/src/main/jni/librtmp/amf.c:862-893 | Writes the specified bytes behind the output pointer and nothing outside the buffer it was given, or returns NULL |
| `AmfBuffers.EncodePropsAt` | librtmp/src/main/jni/librtmp/amf.c:872-887 | The loop stops at the first property that fails and keeps what was written before |
| `AmfBuffers.EncodePropertyAt` | librtmp/src/main/jni/librtmp/amf.c:358-405 | Name and value, or NULL when the name test or the value fails |
| `AmfBuffers.EncodeStringAt` | librtmp/src/main/jni/librtmp/amf.c:172-195 | Short and long strings; a short string is refused unless a long header would fit |
| `AmfBuffers.EncodeNumberAt` | librtmp/src/main/jni/librtmp/amf.c:197-256 | Type byte and the eight bytes |
| `AmfBuffers.EncodeBooleanAt` | librtmp/src/main/jni/librtmp/amf.c:258-269 | Type byte and 0 or 1 |
| `AmfBuffers.DecodeObjectAt` | librtmp/src/main/jni/librtmp/amf.c:1062-1106 | The decoding loop with its resynchronisation computes the specified result, for either width of long |
| `AmfBuffers.DecodePropertyAt` | librtmp/src/main/jni/librtmp/amf.c:597-781 | Size and name tests, then the value, compute the specified result, for either width of long |
| `AmfBuffers.DecodeValueAt` | librtmp/src/main/jni/librtmp/amf.c:642-778 | The switch on the type byte with its size accounting computes the specified result |
| `AmfIntegers.EncodeInt16` | librtmp/src/main/jni/librtmp/amf.c:136-145 | Big-endian bytes at the output pointer, or NULL when they do not fit |
| `AmfIntegers.EncodeInt24` | librtmp/src/main/jni/librtmp/amf.c:147-157 | Big-endian bytes at the output pointer, or NULL when they do not fit |
| `AmfIntegers.EncodeInt32` | librtmp/src/main/jni/librtmp/amf.c:159-170 | Big-endian bytes at the output pointer, or NULL when they do not fit |
| `Bytes.WordAt16` | librtmp/src/main/jni/librtmp/amf.c:39-45 | Decoding a big-endian word wherever it was encoded returns it |
| `Bytes.WordAt24` | librtmp/src/main/jni/librtmp/amf.c:48-54 | Decoding a big-endian word wherever it was encoded returns it |
| `Bytes.WordAt32` | librtmp/src/main/jni/librtmp/amf.c:57-63 | Decoding a big-endian word wherever it was encoded returns it |
| `HashTableSpec.AddIsUpdate` | jrtp/src/main/jni/JRTPLIB/src/rtpkeyhashtable.h:256-305 | Adding a new key extends the map and puts the entry last; an old key changes nothing; the cursor stays |
| `HashTableSpec.DeleteIsRemoval` | jrtp/src/main/jni/JRTPLIB/src/rtpkeyhashtable.h:307-316 | Deleting a key removes exactly it from the map, keeps the order of the others, and finds something to delete exactly when the key is there |
| `HashTableSpec.MapLookup` | jrtp/src/main/jni/JRTPLIB/src/rtpkeyhashtable.h:200-221 | The insertion-order sequence with unique keys is a finite map, looked up by first occurrence |
| `HashTableSpec.PassVisitsAll` | jrtp/src/main/jni/JRTPLIB/src/rtpkeyhashtable.h:120-173 | Deleting while iterating visits every entry exactly once, in order, and removes exactly the doomed ones |
| `HashTableSpec.CursorMoves` | jrtp/src/main/jni/JRTPLIB/src/rtpkeyhashtable.h:120-235 | The cursor goes one entry on or back or off the end, to the entry of a key or nowhere, and after a deletion to the entry that followed |
| `HashTableSpec.ThereAndBack` | jrtp/src/main/jni/JRTPLIB/src/rtpkeyhashtable.h:223-235 | One on and one back is where it was |
| `HashTable.RTPKeyHashTable.constructor` | jrtp/src/main/jni/JRTPLIB/src/rtpkeyhashtable.h:106-118 | An empty table; the cursor is null |
| `HashTable.RTPKeyHashTable.Find` | jrtp/src/main/jni/JRTPLIB/src/rtphashtable.h:178-193 | The bucket search, the same in both tables, finds the node with the key or shows that no node of the table has it |
| `HashTable.RTPKeyHashTable.AddElement` | jrtp/src/main/jni/JRTPLIB/src/rtpkeyhashtable.h:256-305 | Bucket chain and list hold the new node, keys stay unique, previous and next pointers stay inverse; the three outcomes of the call |
| `HashTable.RTPKeyHashTable.GotoElement` | jrtp/src/main/jni/JRTPLIB/src/rtpkeyhashtable.h:176-198 | The cursor is on the node with the key or nowhere; an invalid hash index leaves it alone |
| `HashTable.RTPKeyHashTable.HasElement` | jrtp/src/main/jni/JRTPLIB/src/rtpkeyhashtable.h:200-221 | True exactly for a key of the table with a valid hash index |
| `HashTable.RTPKeyHashTable.DeleteCurrentElement` | jrtp/src/main/jni/JRTPLIB/src/rtpkeyhashtable.h:120-173 | The node leaves its chain and the list, and the cursor is on its list successor |
| `HashTable.RTPKeyHashTable.DeleteElement` | jrtp/src/main/jni/JRTPLIB/src/rtpkeyhashtable.h:307-316 | Goes to the key and deletes there; a missing key leaves the cursor nowhere |
| `HashTable.RTPKeyHashTable.GotoFirstElement` | jrtp/src/main/jni/JRTPLIB/src/rtpkeyhashtable.h:62-62 | The cursor is on the oldest entry |
| `HashTable.RTPKeyHashTable.GotoLastElement` | jrtp/src/main/jni/JRTPLIB/src/rtpkeyhashtable.h:63-63 | The cursor is on the newest entry |
| `HashTable.RTPKeyHashTable.GotoNextElement` | jrtp/src/main/jni/JRTPLIB/src/rtpkeyhashtable.h:223-228 | The cursor moves one entry on, or off the end |
| `HashTable.RTPKeyHashTable.GotoPreviousElement` | jrtp/src/main/jni/JRTPLIB/src/rtpkeyhashtable.h:230-235 | The cursor moves one entry back, or off the front |
| `HashTable.RTPKeyHashTable.Clear` | jrtp/src/main/jni/JRTPLIB/src/rtpkeyhashtable.h:237-254 | Every node is freed exactly once, in list order, and the table is empty |
| `HashTable.Timeout` | jrtp/src/main/jni/JRTPLIB/src/rtpsources.cpp:822-850 | The timeout loop of the source table sees every source once and deletes exactly the expired ones |
| `RtcpSchedule.FiringsSpaced` | jrtp/src/main/jni/JRTPLIB/src/rtcpscheduler.cpp:179-234 | Over every run of calls, membership changes and random values with a clock that never runs backwards, two successive true results of IsTime are at least half the minimum interval over 1.21828 apart, half of that while nothing was sent or for a BYE with half-at-startup; only an immediate BYE owes no gap |
| `RtcpSchedule.StepKeepsPrev` | jrtp/src/main/jni/JRTPLIB/src/rtcpscheduler.cpp:179-234 | No call moves the previous time backwards or past the clock, and a firing keeps its gap from it |
| `RtcpSchedule.GapKept` | jrtp/src/main/jni/JRTPLIB/src/rtcpscheduler.cpp:248-314 | The reconsidered time is at least the gap after the previous time |
| `RtcpSchedule.DueFires` | jrtp/src/main/jni/JRTPLIB/src/rtcpscheduler.cpp:190-224 | An expired timer fires whatever the random values once 1.5 / 1.21828 of the deterministic interval has passed since the previous time |
| `RtcpSchedule.NotTwice` | jrtp/src/main/jni/JRTPLIB/src/rtcpscheduler.cpp:179-234 | Called again right away IsTime returns false |
| `RtcpSchedule.DecreaseTowardsNow` | jrtp/src/main/jni/JRTPLIB/src/rtcpscheduler.cpp:316-355 | Reverse reconsideration never moves the previous time backwards nor a running timer later, and shrinks both distances from now in proportion to the members left (section 6.3.4 of RFC 3550) |
| `RtcpSchedule.BandwidthKept` | jrtp/src/main/jni/JRTPLIB/src/rtcpscheduler.cpp:248-296 | The purpose of the interval: members that send an average packet once per interval keep, senders and others separately while senders are few, to their share of the RTCP bandwidth, and together to the whole of it (section 6.3.1 of RFC 3550) |
| `RtcpSchedule.BandwidthUsed` | jrtp/src/main/jni/JRTPLIB/src/rtcpscheduler.cpp:261-296 | The interval is no longer than it has to be: it is the minimum, halved at startup where half intervals are in use, or it uses up the bandwidth exactly, the share of each side while senders are few and the whole otherwise |
| `RtcpSchedule.ByeBandwidthUsed` | jrtp/src/main/jni/JRTPLIB/src/rtcpscheduler.cpp:392-418 | Likewise for the BYE back-off, with the members that leave and the bandwidth of the receivers |
| `RtcpSchedule.RandomizedEvenly` | jrtp/src/main/jni/JRTPLIB/src/rtcpscheduler.cpp:305-307 | The random factor runs evenly from a half to three halves, over 1.21828 |
| `RtcpSchedule.FiresExactly` | jrtp/src/main/jni/JRTPLIB/src/rtcpscheduler.cpp:179-234 | IsTime is true if and only if it is not the first call, the timer has expired and the interval computed anew has passed since the previous time; and which of its fields each outcome moves, and where to |
| `RtcpSchedule.TimerMeansThat` | jrtp/src/main/jni/JRTPLIB/src/rtcpscheduler.cpp:219-234 | Asked again with the same members and random value, the timer fires from the very moment it was set to, whether started, restarted or put off |
| `RtcpSchedule.ByeScheduled` | jrtp/src/main/jni/JRTPLIB/src/rtcpscheduler.cpp:357-384 | Scheduling a BYE counts the own one, remembers size and time, and sets the timer to the moment from which it fires, at once for an immediate BYE |
| `RtcpSchedule.NoByeAtFirst` | jrtp/src/main/jni/JRTPLIB/src/rtcpscheduler.cpp:362-366 | No call leaves a BYE scheduled with the first call still to come |
| `RtcpSchedule.AverageExactly` | jrtp/src/main/jni/JRTPLIB/src/rtcpscheduler.cpp:121-125 | The average is a sixteenth of the new size and fifteen sixteenths of the old average, rounded down |
| `RtcpSchedule.Average` | jrtp/src/main/jni/JRTPLIB/src/rtcpscheduler.cpp:121-125 | The running average stays between its old value and the new packet size |
| `RtcpSchedule.ImmediateByeFollowsAtOnce` | jrtp/src/main/jni/JRTPLIB/src/rtcpscheduler.cpp:357-384 | With immediate BYEs and fewer than 50 members there is a run of calls from the start, whatever the random value, in which IsTime returns true twice at the same instant, for a packet and for the BYE |
| `RtcpSchedule.ApartUnlessImmediate` | jrtp/src/main/jni/JRTPLIB/src/rtcpscheduler.cpp:179-234 | Over all runs from the start successive true results of IsTime keep at least the smallest gap apart if and only if immediate BYEs are off |
| `RtcpScheduler.RTCPScheduler.IsTime` | jrtp/src/main/jni/JRTPLIB/src/rtcpscheduler.cpp:179-234 | Takes the specified step with the clock readings and random values in the order the source draws them |
| `RtcpScheduler.RTCPScheduler.GetTransmissionDelay` | jrtp/src/main/jni/JRTPLIB/src/rtcpscheduler.cpp:158-177 | The delay ends exactly when the timer expires; never negative |
| `RtcpScheduler.RTCPScheduler.PerformReverseReconsideration` | jrtp/src/main/jni/JRTPLIB/src/rtcpscheduler.cpp:316-355 | Takes the specified step |
| `RtcpScheduler.RTCPScheduler.ActiveMemberDecrease` | jrtp/src/main/jni/JRTPLIB/src/rtcpscheduler.cpp:386-390 | Reconsiders only when there are fewer members than before |
| `RtcpScheduler.RTCPScheduler.ScheduleBYEPacket` | jrtp/src/main/jni/JRTPLIB/src/rtcpscheduler.cpp:357-384 | Takes the specified step; a second BYE changes nothing |
| `RtcpScheduler.RTCPScheduler.AnalyseIncoming` | jrtp/src/main/jni/JRTPLIB/src/rtcpscheduler.cpp:109-135 | Averages a packet without BYE, counts one with a BYE while a BYE is scheduled |
| `RtcpScheduler.RTCPScheduler.AnalyseOutgoing` | jrtp/src/main/jni/JRTPLIB/src/rtcpscheduler.cpp:137-156 | Averages and records that something was sent |
| `RtcpScheduler.RTCPScheduler.CalculateDeterministicInterval` | jrtp/src/main/jni/JRTPLIB/src/rtcpscheduler.cpp:248-296 | The interval of section 6.3.1 of RFC 3550 without randomness, never below the minimum |
| `RtcpScheduler.RTCPScheduler.CalculateTransmissionInterval` | jrtp/src/main/jni/JRTPLIB/src/rtcpscheduler.cpp:298-314 | The randomised interval |
| `RtcpScheduler.RTCPScheduler.CalculateBYETransmissionInterval` | jrtp/src/main/jni/JRTPLIB/src/rtcpscheduler.cpp:392-420 | The randomised interval of the BYE back-off |
| `JThread.OneBody` | jrtp/src/main/jni/jthread/jthread.cpp:175-199 | For any number of concurrent calls of Start at most one thread is starting or running, so at most one is in Thread() |
| `JThread.StartIsHonest` | jrtp/src/main/jni/jthread/jthread.cpp:71-115 | Start returns 0 only after its thread called ThreadStarted, an error only when it created none, and while it polls, running stays set once its thread has set it |
| `JThreadOutcomes.OutcomeTold` | jrtp/src/main/jni/jthread/jthread.cpp:71-115 | Over every run of any number of calls, both ways: Start fails if and only if a pthread_create of its own failed, refuses if and only if it found running set, succeeds only after it has seen running set, and its thread is past ThreadStarted if and only if it called it from Thread() |
| `JThreadOutcomes.NeverFails` | jrtp/src/main/jni/jthread/jthread.cpp:79-94 | As long as pthread_create works no call returns ERR_JTHREAD_CANTSTARTTHREAD |
| `JThreadOutcomes.RunningExactly` | jrtp/src/main/jni/jthread/jthread.cpp:175-204 | running is set if and only if some thread is between setting and clearing it |
| `JThreadOutcomes.RefusedForAnother` | jrtp/src/main/jni/jthread/jthread.cpp:71-78 | A call is refused only where another call has created a thread |
| `JThreadOutcomes.EveryCallServed` | jrtp/src/main/jni/jthread/jthread.cpp:71-115 | A run that has nowhere left to go, with pthread_create working, has every call back: with success exactly where it created its thread, which has gone through Thread() and ended, and otherwise refused for another one |
| `JThreadOutcomes.SomeoneStarts` | jrtp/src/main/jni/jthread/jthread.cpp:71-115 | In such a run of at least one call some call has succeeded |
| `JThreadOutcomes.AloneStarts` | jrtp/src/main/jni/jthread/jthread.cpp:71-115 | A single call of Start ends with success, its thread created, run through Thread() and ended |
| `JThreadOutcomes.EveryRunCanEnd` | jrtp/src/main/jni/jthread/jthread.cpp:71-115 | Wherever a run has got to with pthread_create working, it can go on until every call is back and some of them with success |
| `JThreadOutcomes.OneInThread` | jrtp/src/main/jni/jthread/jthread.cpp:175-204 | At most one thread is in Thread(), before or after its ThreadStarted, and running is set |
| `JThread.NoDeadlock` | jrtp/src/main/jni/jthread/jthread.cpp:71-115 | In no reachable state are the calls and threads deadlocked: within two polling steps something other than polling can happen |
| `JThread.ForwardBounded` | jrtp/src/main/jni/jthread/jthread.cpp:95-111 | A run of n calls has at most 20 n steps that are not polling |
| `JThread.VacantFound` | jrtp/src/main/jni/jthread/jthread.cpp:71-79 | A call that finds running clear while holding continuemutex finds no thread starting either |
| `JThread.CallKeeps` | jrtp/src/main/jni/jthread/jthread.cpp:71-115 | Every step of Start keeps the invariant on mutexes, running and positions |
| `JThread.WorkKeeps` | jrtp/src/main/jni/jthread/jthread.cpp:175-204 | Every step of a thread keeps the invariant |
| `JThread.RunKeeps` | jrtp/src/main/jni/jthread/jthread.cpp:71-115 | Every run keeps the invariant |
| `ExternalTransmitter.NoLostWakeup` | jrtp/src/main/jni/JRTPLIB/src/rtpexternaltransmitter.cpp:270-341 | Whenever the main mutex is free the pipe holds exactly the counted bytes, and a call blocked in select while a packet is queued has a byte to wake it |
| `TransmitterOutcomes.OutcomeTold` | jrtp/src/main/jni/JRTPLIB/src/rtpexternaltransmitter.cpp:270-341 | Over every run the result of a call is decided by what it found, both ways: a wait reports data if and only if the list held a packet when it looked, a second wait is refused if and only if one was waiting, a fetch returns the first packet, or none if and only if there was none, and aborting does nothing if and only if nobody waited |
| `TransmitterOutcomes.WaitingExactly` | jrtp/src/main/jni/JRTPLIB/src/rtpexternaltransmitter.cpp:283-335 | waitingfordata is set if and only if some call is waiting |
| `TransmitterOutcomes.SignalWakes` | jrtp/src/main/jni/JRTPLIB/src/rtpexternaltransmitter.cpp:343-358 | An abort, or the signal of an injected packet, lets a call that sits in select go on at once |
| `TransmitterOutcomes.WokenMeansFlushed` | jrtp/src/main/jni/JRTPLIB/src/rtpexternaltransmitter.cpp:318-335 | A wait that a byte woke reports with the pipe empty and the count at zero |
| `TransmitterOutcomes.NothingMoves` | jrtp/src/main/jni/JRTPLIB/src/rtpexternaltransmitter.cpp:270-341 | When no call can move without select timing out or failing, every call is done or sits in select with nothing queued and no byte to wake it |
| `ExternalTransmitter.FirstInFirstOut` | jrtp/src/main/jni/JRTPLIB/src/rtpexternaltransmitter.cpp:550-574 | Packets come out in the order they went in; none is lost or delivered twice |
| `ExternalTransmitter.OneWaiter` | jrtp/src/main/jni/JRTPLIB/src/rtpexternaltransmitter.cpp:283-289 | At most one call waits, and waitingfordata is set while it does |
| `ExternalTransmitter.NoDeadlock` | jrtp/src/main/jni/JRTPLIB/src/rtpexternaltransmitter.cpp:270-341 | The two mutexes never deadlock: an unfinished call can move or some other can, unless it waits for data that is not there |
| `ExternalTransmitter.RunBounded` | jrtp/src/main/jni/JRTPLIB/src/rtpexternaltransmitter.cpp:270-341 | No run of n calls has more than 12 n steps, the bytes read from the pipe included, whatever select returns |
| `ExternalTransmitter.RunsEndWell` | jrtp/src/main/jni/JRTPLIB/src/rtpexternaltransmitter.cpp:270-341 | Where nothing can move any more every call is done, or sits in select with nothing queued and no byte to wake it |
| `ExternalTransmitter.StepKeeps` | jrtp/src/main/jni/JRTPLIB/src/rtpexternaltransmitter.cpp:588-680 | Every step of waiting, injecting, aborting and fetching keeps the invariant |
| `ExternalTransmitter.StepBalances` | jrtp/src/main/jni/JRTPLIB/src/rtpabortdescriptors.cpp:231-258 | Signalling and clearing keep the pipe in step with the abort count |
| `ExternalTransmitter.StepAnnounces` | jrtp/src/main/jni/JRTPLIB/src/rtpexternaltransmitter.cpp:621-630 | A queued packet is announced, or about to be by the holder of the main mutex |
| `ReceiveQueue.InsertKeeps` | jrtp/src/main/jni/JRTPLIB/src/rtpinternalsourcedata.cpp:145-186 | The queue stays strictly increasing in extended sequence number, loses nothing, and gains the packet exactly when its number is new |
| `ReceiveQueue.AcceptKeeps` | jrtp/src/main/jni/JRTPLIB/src/rtpinternalsourcedata.cpp:132-186 | One arrival, eviction included: the queue stays sorted, and at most 32 long on probation; it loses nothing but the lowest packet of a full queue on probation, and the number that arrived is in it |
| `ReceiveQueue.AcceptedAs` | jrtp/src/main/jni/JRTPLIB/src/rtpinternalsourcedata.cpp:132-186 | Which packets are queued after one arrival, both ways, and that they are in increasing order |
| `ReceiveQueue.ReceiveAllKeeps` | jrtp/src/main/jni/JRTPLIB/src/rtpinternalsourcedata.cpp:107-186 | Over any run of arrivals, with the eviction on probation, the queue stays sorted and bounded and holds nothing that did not arrive; every packet that was there, and a packet for every number that arrived, is in the queue or was evicted; a validated source loses nothing |
| `ReceiveQueue.LostExactly` | jrtp/src/main/jni/JRTPLIB/src/rtpinternalsourcedata.cpp:132-186 | Of packets with distinct numbers exactly those beyond 32 are evicted on probation, and none otherwise; each packet is either evicted or in the queue |
| `ReceiveQueue.LowestDecides` | jrtp/src/main/jni/JRTPLIB/src/rtpinternalsourcedata.cpp:132-143 | The order of arrival matters on probation: of more than 32 packets the lowest is lost if it comes first and kept if it comes last |
| `ReceiveQueue.ArrivalOrderIrrelevant` | jrtp/src/main/jni/JRTPLIB/src/rtpinternalsourcedata.cpp:107-186 | All orders in which packets with distinct numbers can arrive leave the same queue if and only if the source is validated or there are at most 32 of them |
| `ReceiveQueue.LostBeforeAccepted` | jrtp/src/main/jni/JRTPLIB/src/rtpinternalsourcedata.cpp:59-186 | A run in the course of which the source is validated loses, of packets with distinct numbers, exactly those beyond 32 among the packets before the first accepted one; the accepted packet and what follows are never lost |
| `ReceiveQueue.LowestDecidesEarly` | jrtp/src/main/jni/JRTPLIB/src/rtpinternalsourcedata.cpp:132-143 | With more than 32 packets before the first accepted one the lowest of all is lost if it comes first and kept if it comes last |
| `ReceiveQueue.OrderIrrelevantIffEarly` | jrtp/src/main/jni/JRTPLIB/src/rtpinternalsourcedata.cpp:59-186 | Whatever is accepted when, all orders of packets with distinct numbers leave the same queue if and only if at most 32 packets come before the first accepted one |
| `ReceiveQueue.DuplicateHarmless` | jrtp/src/main/jni/JRTPLIB/src/rtpinternalsourcedata.cpp:132-186 | A packet whose number is in the queue leaves the queue as it is if and only if the source is validated, the queue is not full, or it is the very packet that is evicted to make room |
| `ReceiveQueue.RTPInternalSourceData.ProcessRTPPacket` | jrtp/src/main/jni/JRTPLIB/src/rtpinternalsourcedata.cpp:59-186 | The queue, the flags and stored after one packet: let in if accepted, or on probation where such packets are stored; stored exactly when handled by the callback or when no queued packet that stays has its number; sorted, and at most 32 packets while not validated |
| `ReceiveQueue.RTPInternalSourceData.Place` | jrtp/src/main/jni/JRTPLIB/src/rtpinternalsourcedata.cpp:145-186 | The search from the back puts the packet at its place or drops a duplicate |
| `ReceiveQueue.DuplicateCostsOldest` | jrtp/src/main/jni/JRTPLIB/src/rtpinternalsourcedata.cpp:132-143 | Eviction precedes the duplicate check: any other duplicate at a full queue on probation costs the oldest packet |
| `ReceiveQueue.RTPInternalSourceData.GetNextPacket` | jrtp/src/main/jni/JRTPLIB/src/rtpsourcedata.h:454-466 | A validated source gives its packets in increasing order |
| `RtpPacket.BuildThenParse` | jrtp/src/main/jni/JRTPLIB/src/rtppacket.cpp:222-320 | Whatever BuildPacket accepts, ParseRawPacket returns: every header field, the CSRCs in order, extension and payload |
| `RtpPacket.ParseThenBuild` | jrtp/src/main/jni/JRTPLIB/src/rtppacket.cpp:103-205 | An unpadded packet that parses is exactly the wire form of what was read |
| `RtpPacket.ParsesExactly` | jrtp/src/main/jni/JRTPLIB/src/rtppacket.cpp:103-205 | A packet parses if and only if it is of version 2, does not look like a sender or receiver report, and CSRCs, extension and a padding count other than zero fit in it; every field then is what its bytes say |
| `RtpPacket.PaddingIgnored` | jrtp/src/main/jni/JRTPLIB/src/rtppacket.cpp:148-155 | A packet padded with any 1 to 255 bytes, the last of them their number, reads as it does without them |
| `RtpPacket.RefusedIfAmbiguous` | jrtp/src/main/jni/JRTPLIB/src/rtppacket.cpp:230-233 | Payload types 72 and 73 are refused and no other below 128: exactly those that with the marker bit would not be read back |
| `RtpPacket.AcceptedIfFits` | jrtp/src/main/jni/JRTPLIB/src/rtppacket.cpp:235-249 | What is accepted fits the limit, and what fits is accepted |
| `RtpPacketBuilder.RTPPacket.BuildPacket` | jrtp/src/main/jni/JRTPLIB/src/rtppacket.cpp:222-320 | The buffer starts with the wire form, or a status says why not and the buffer is untouched |
| `RtpPacketBuilder.RTPPacket.ParseRawPacket` | jrtp/src/main/jni/JRTPLIB/src/rtppacket.cpp:103-205 | Accepts exactly the packets the specification parses, and the members then describe its content |
| `RtpPacketBuilder.RTPPacket.GetCSRC` | jrtp/src/main/jni/JRTPLIB/src/rtppacket.cpp:207-220 | The CSRC at an index, 0 beyond the list |
| `RtpPacketBuilder.RunAddsUp` | jrtp/src/main/jni/JRTPLIB/src/rtppacketbuilder.cpp:220-248 | Over every run of the builder the CSRC list stays duplicate-free with at most 15 entries, packets carry consecutive sequence numbers and the one SSRC, and sequence number, timestamp and both counters are modular sums over the successful builds |
| `RtpPacketBuilder.AddedKeeps` | jrtp/src/main/jni/JRTPLIB/src/rtppacketbuilder.cpp:105-120 | Adding keeps the list duplicate-free and bounded, and adds exactly the new source while there is room |
| `RtpPacketBuilder.DeletedKeeps` | jrtp/src/main/jni/JRTPLIB/src/rtppacketbuilder.cpp:122-144 | Deleting by moving the last entry keeps the list duplicate-free and removes exactly the source |
| `RtpPacketBuilder.RTPPacketBuilder.AddCSRC` | jrtp/src/main/jni/JRTPLIB/src/rtppacketbuilder.cpp:105-120 | List and status of the call |
| `RtpPacketBuilder.RTPPacketBuilder.DeleteCSRC` | jrtp/src/main/jni/JRTPLIB/src/rtppacketbuilder.cpp:122-144 | List and status of the call |
| `RtpPacketBuilder.RTPPacketBuilder.ClearCSRCList` | jrtp/src/main/jni/JRTPLIB/src/rtppacketbuilder.cpp:146-150 | The list is empty, nothing else changes |
| `RtpPacketBuilder.RTPPacketBuilder.CreateNewSSRC` | jrtp/src/main/jni/JRTPLIB/src/rtppacketbuilder.cpp:152-161 | New random identity, counters at zero, CSRC list kept |
| `RtpPacketBuilder.RTPPacketBuilder.PrivateBuildPacket` | jrtp/src/main/jni/JRTPLIB/src/rtppacketbuilder.cpp:220-248 | On success the buffer holds the packet asked for, its number of extension words cut to 16 bits, and the counters move; on failure nothing changes |
| `RtpPacketBuilder.ExtensionReturns` | jrtp/src/main/jni/JRTPLIB/src/rtppacketbuilder.cpp:220-224 | A packet built parses back to what was asked for, except that the words of a header extension come back if and only if there are fewer than 65536 of them |
| `RtpPacketBuilder.LongExtensionVanishes` | jrtp/src/main/jni/JRTPLIB/src/rtppacketbuilder.cpp:223-224 | An extension of 65536 words is built without an error and read back as an empty one |
| `Xxtea.DecodeBlock` | librtmp/src/main/jni/librtmp/rtmp.c:3324-3339 | For every mixing function the loop runs exactly 6 + 52 / n rounds, and of every block of at least two words it leaves the one block that corrected Block TEA encrypts to it |
| `Xxtea.DecodeRound` | librtmp/src/main/jni/librtmp/rtmp.c:3329-3336 | One round undoes the words from last to first, carrying y over from the round before, for any block of one word or more |
| `Xxtea.RoundsUndone` | librtmp/src/main/jni/librtmp/rtmp.c:3327-3339 | Decryption rounds undo as many encryption rounds |
| `Xxtea.RoundsRedone` | librtmp/src/main/jni/librtmp/rtmp.c:3327-3339 | Encryption rounds redo as many decryption rounds |
| `Xxtea.SumZero` | librtmp/src/main/jni/librtmp/rtmp.c:3328-3329 | The running sum is zero modulo 2^32 exactly when no round is left |
| `Rotation.ThereAndBack` | osd/src/main/jni/YuvUtils.cpp:455-493 | Rotating W by H by 90 and the result by 270 restores the frame byte for byte |
| `Rotation.Rotate90` | osd/src/main/jni/YuvUtils.cpp:455-474 | The whole frame of W*H*3/2 bytes is filled, every byte with the one at its rotated position, U and V exchanged |
| `Rotation.Rotate270` | osd/src/main/jni/YuvUtils.cpp:475-494 | The whole frame of W*H*3/2 bytes is filled, every byte with the one at its rotated position, U and V exchanged |
| `Rotation.Straight` | osd/src/main/jni/YuvUtils.cpp:446-454 | Without rotation luma is copied and the bytes of each chroma pair change places |
| `Rotation.SwappedTwice` | osd/src/main/jni/YuvUtils.cpp:446-454 | Twice without rotation restores the frame |
| `Rotation.Luma90At` | osd/src/main/jni/YuvUtils.cpp:456-461 | Row j, column i of the source comes to row i, column h-1-j of the result |
| `Rotation.Luma270At` | osd/src/main/jni/YuvUtils.cpp:476-481 | Row j of the c-th column from the right comes to row c, column j of the result |
| `Rotation.Chroma90At` | osd/src/main/jni/YuvUtils.cpp:465-471 | The chroma pair of row j and columns i, i+1 comes to row i/2 of the result, pair h/2-1-j, its two bytes exchanged |
| `Rotation.Chroma270At` | osd/src/main/jni/YuvUtils.cpp:485-491 | The chroma pair of row j and columns i-1, i comes to row (w-1-i)/2 of the result, pair j, its two bytes exchanged |
| `Rotation.LumaReturns` | osd/src/main/jni/YuvUtils.cpp:456-461 | The luma position maps of 90 and 270 are inverse |
| `Rotation.ChromaReturns` | osd/src/main/jni/YuvUtils.cpp:463-471 | The chroma position maps of 90 and 270 are inverse |

## Left out

- The wire is a perfect byte sequence: sockets, TLS, HTTP tunnelling, SOCKS, file input and the retries of `ReadN` and `WriteN` are not modelled; a read fails only where the stream ends.
- Memory always suffices: the paths for failed allocation, memory managers and debug dumps are left out.
- RtmpEndpoint.RTMP.SendPacket: the queue of remote calls that follows an invoke packet is not modelled, and the channel table keeps only the three fields that compression reads.
- RtmpEndpoint.RTMP.ReadPacket: the raw chunk a caller may ask for is not modelled, and body bytes are spliced into a value instead of copied in place.
- RtmpRun.ConnectionRoundTrip: chunk sizes are equal at both ends and do not change during the run.
- RtcpBuilder.RTCPCompoundPacketBuilder.EndBuild: with an external buffer the contents must be within the limit, because the source does not test it again; `FirstSourceCanOverrun` shows that they may not be.
- `AddUnknownPacket` of the RTCP builder: `RTP_SUPPORT_RTCPUNKNOWN` is not defined.
- Which sources `FillInReportBlocks` reports on and which SDES items `FillInSDES` adds: both depend on the source table; every sequence of builder calls they can make is covered by `RunsFit` and `BuiltPacketParses`.
- AmfCodec.DecodeProperty: ECMA arrays, strict arrays and the switch to AMF3 end in an outcome of their own; with them the length accounting may go negative, and there is no encoder to compare with.
- AmfCodec.DecodeLongString: what the 32-bit decoder does once it has accepted a string that does not lie in its input is not followed further, nor what it does when fewer than four bytes are left, where the length is read past the end; both are the outcome Astray. For stored lengths from 2^31 - 4 to 2^31 - 1 the sum in the test overflows a signed 32-bit long, which C leaves undefined; the model takes the wrapped result. With 64 bits such a read, and that of a short string's length, ends in a failure whatever is read.
- AmfBuffers.EncodeNumberAt: a number in AMF is its eight bytes in wire order; turning the bytes of a double round is not modelled.
- The helpers `AMF_EncodeNamedString`, `AMF_EncodeNamedNumber` and `AMF_EncodeNamedBoolean`: an integer and a copy in front of the encoders that are modelled.
- HashTable.RTPKeyHashTable.Clear: the source leaves the cursor dangling; the model makes it null. A negative hash index is not modelled.
- HashTable.RTPKeyHashTable.constructor: the source leaves the cursor unset; the model makes it null.
- HashTable.Timeout: the counts of sources, senders and active members and the two callbacks are not modelled.
- RtcpSchedule.FiringsSpaced: times and doubles are reals, and a zero bandwidth or a sender fraction of 0 or 1, which divide by zero, are excluded here and from the methods of `RTCPScheduler`; the parameters do not change during a run.
- JThread.StartIsHonest: the mutexes are initialised beforehand, `Kill` is not called, and `Thread()` calls `ThreadStarted` once.
- ExternalTransmitter.NoLostWakeup: the transmitter stays created, and the pipe takes every byte written to it.
- The statistics behind a received packet and the callback that may take it are inputs of `ProcessRTPPacket`.
- ReceiveQueue.OrderIrrelevantIffEarly: which arrivals the statistics accept is fixed by position, not by packet; an arrival they refuse altogether is not part of the run.
- RtpPacketBuilder.RTPPacketBuilder.PrivateBuildPacket: the variants with default payload type, marker and increment only supply stored arguments and are not modelled; random values are arguments.
- Xxtea.DecodeBlock: packing the key and reading the hexadecimal text are not modelled; a block of one word is decoded but is none the cipher encrypts, and an empty one divides by zero.
- Rotation.Rotate90: the glyphs drawn over the frame are data and not modelled; `nv21ToNv12` copies in the wrong direction and is left out.
- JNI glue, logging, Java callbacks, cryptography, FU-A sending and PS demultiplexing: plumbing, or no clean property.
