/** The RTMP chunk stream of librtmp/rtmp.c on values: what RTMP_SendPacket puts on the wire for a
    message, and what RTMP_ReadPacket makes of the next chunk. (Adobe RTMP 1.0, section 5.3.1.) */
module RtmpChunkStream {
  import opened Bytes

  const RTMP_CHANNELS := 65600
  const RTMP_MAX_HEADER_SIZE := 18

  const LARGE := 0
  const MEDIUM := 1
  const SMALL := 2
  const MINIMUM := 3

  type HeaderType = n: int | 0 <= n <= 3
  type ChunkSize = n: int | 0 < n witness 128

  /** Bytes of a chunk header with a one-byte basic header, by type. */
  function PacketSize(fmt: HeaderType): nat {
    if fmt == LARGE then 12 else if fmt == MEDIUM then 8 else if fmt == SMALL then 4 else 1
  }

  // ---------- sender ----------

  /** A message handed to the sender; a NULL body is the empty sequence. */
  datatype Message = Message(headerType: HeaderType, channel: nat, timestamp: U32,
                             packetType: Byte, info: U32, body: seq<Byte>)

  /** What the sender remembers of the last packet of a channel and uses for compression. */
  datatype Sent = Sent(bodySize: nat, packetType: Byte, timestamp: U32)

  function SentOf(m: Message): Sent {
    Sent(|m.body|, m.packetType, m.timestamp)
  }

  function Compressed(prev: Option<Sent>, m: Message): HeaderType {
    if prev.None? || m.headerType == LARGE then m.headerType
    else
      var same := prev.value.bodySize == |m.body| && prev.value.packetType == m.packetType;
      var fmt := if same && m.headerType == MEDIUM then SMALL else m.headerType;
      if prev.value.timestamp == m.timestamp && fmt == SMALL then MINIMUM else fmt
  }

  /** The 32-bit difference transmitted as the timestamp field. */
  function TimestampField(prev: Option<Sent>, m: Message): U32 {
    var last := if prev.None? || m.headerType == LARGE then 0 else prev.value.timestamp;
    (m.timestamp - last) % TWO32
  }

  /** Extra channel bytes of the basic header. */
  function ChannelBytes(channel: nat): nat {
    if channel > 319 then 2 else if channel > 63 then 1 else 0
  }

  function BasicHeader(fmt: HeaderType, channel: nat): (h: seq<Byte>)
    ensures |h| == 1 + ChannelBytes(channel)
  {
    if channel > 319 then [fmt * 64 + 1, (channel - 64) % 256, (channel - 64) / 256 % 256]
    else if channel > 63 then [fmt * 64, channel - 64]
    else [fmt * 64 + channel]
  }

  function TimePart(fmt: HeaderType, t: U32): seq<Byte> {
    if fmt < MINIMUM then Be24(if t > 0xffffff then 0xffffff else t) else []
  }

  function SizePart(fmt: HeaderType, bodySize: nat, packetType: Byte): seq<Byte> {
    if fmt < SMALL then Be24(bodySize % 0x100_0000) + [packetType] else []
  }

  function IdPart(fmt: HeaderType, info: U32): seq<Byte> {
    if fmt < MEDIUM then Le32(info) else []
  }

  /** The fixed-size message header that follows the basic header. */
  function MessageHeader(fmt: HeaderType, t: U32, m: Message): (h: seq<Byte>)
    ensures |h| == PacketSize(fmt) - 1
  {
    TimePart(fmt, t) + SizePart(fmt, |m.body|, m.packetType) + IdPart(fmt, m.info)
  }

  function ExtendedTimestamp(fmt: HeaderType, t: U32): (h: seq<Byte>)
    ensures |h| == if fmt < MINIMUM && t >= 0xffffff then 4 else 0
  {
    if fmt < MINIMUM && t >= 0xffffff then Be32(t) else []
  }

  function FirstHeader(prev: Option<Sent>, m: Message): (h: seq<Byte>)
    ensures |h| <= RTMP_MAX_HEADER_SIZE
  {
    var fmt, t := Compressed(prev, m), TimestampField(prev, m);
    BasicHeader(fmt, m.channel) + MessageHeader(fmt, t, m) + ExtendedTimestamp(fmt, t)
  }

  /** The chunks that carry a non-empty remainder of a body. */
  function ContinuationChunks(channel: nat, rest: seq<Byte>, chunkSize: ChunkSize): seq<seq<Byte>>
    decreases |rest|
  {
    if rest == [] then []
    else
      var n := Min(chunkSize, |rest|);
      [BasicHeader(MINIMUM, channel) + rest[..n]] + ContinuationChunks(channel, rest[n..], chunkSize)
  }

  /** All chunks of one message. */
  function Chunks(prev: Option<Sent>, m: Message, chunkSize: ChunkSize): seq<seq<Byte>> {
    var n := Min(chunkSize, |m.body|);
    [FirstHeader(prev, m) + m.body[..n]] + ContinuationChunks(m.channel, m.body[n..], chunkSize)
  }

  // ---------- reader ----------

  /** RTMPPacket. The body is the allocated buffer (all of m_nBodySize), of which m_nBytesRead are filled. */
  datatype Packet = Packet(headerType: HeaderType, packetType: Byte, hasAbsTimestamp: bool, channel: nat,
                           timestamp: U32, info: U32, bodySize: U32, bytesRead: U32,
                           body: Option<seq<Byte>>)
  {
    ghost predicate Valid() {
      && bytesRead <= bodySize
      && (body.Some? ==> |body.value| == bodySize)
    }

    /** RTMPPacket_IsReady */
    predicate Ready() {
      bytesRead == bodySize
    }
  }

  /** The reader's tables: m_vecChannelsIn, m_channelTimestamp and m_inChunkSize. */
  datatype Reader = Reader(channelsIn: map<nat, Packet>, channelTimestamp: map<nat, U32>, chunkSize: nat)
  {
    ghost predicate Valid() {
      forall c :: c in channelsIn ==> channelsIn[c].Valid() && channelsIn[c].channel == c
    }

    function TimestampOf(channel: nat): U32 {
      if channel in channelTimestamp then channelTimestamp[channel] else 0
    }
  }

  /** Channel number and length of the basic header at the start of w, if it is all there. */
  function DecodeBasic(w: seq<Byte>): (r: Option<(nat, nat)>)
    ensures r.Some? ==> 0 < r.value.1 <= |w|
  {
    if |w| < 1 then None
    else if w[0] % 64 == 0 then (if |w| < 2 then None else Some((w[1] as int + 64, 2)))
    else if w[0] % 64 == 1 then (if |w| < 3 then None else Some((w[2] as int * 256 + w[1] as int + 64, 3)))
    else Some((w[0] % 64, 1))
  }

  /** The packet a chunk continues: the remembered one unless the header is a full one. */
  function Resume(r: Reader, p: Packet, fmt: HeaderType, channel: nat): Packet {
    if fmt == LARGE then p.(headerType := fmt, channel := channel, hasAbsTimestamp := true)
    else if channel in r.channelsIn then r.channelsIn[channel]
    else p.(headerType := fmt, channel := channel)
  }

  /** Fields of the message header of n bytes at w[i..]. */
  function Refresh(p: Packet, w: seq<Byte>, i: nat, n: nat): Packet
    requires i + n <= |w|
  {
    var p := if n >= 3 then p.(timestamp := FromBe24(w, i)) else p;
    var p := if n >= 6 then p.(bodySize := FromBe24(w, i + 3), bytesRead := 0, body := None) else p;
    var p := if n > 6 then p.(packetType := w[i + 6]) else p;
    if n == 11 then p.(info := FromLe32(w, i + 7)) else p
  }

  /** RTMPPacket_Alloc when a body is needed and absent. */
  function Allocated(p: Packet, fmt: HeaderType): Packet {
    if p.bodySize > 0 && p.body.None?
    then p.(body := Some(seq(p.bodySize, _ => 0)), bytesRead := 0, headerType := fmt)
    else p
  }

  /** Everything of a chunk before its payload: the packet being filled and the header length. */
  function ReadHeader(r: Reader, p: Packet, w: seq<Byte>): Option<(Packet, nat)> {
    var basic := DecodeBasic(w);
    if basic.None? then None
    else
      var (channel, b) := basic.value;
      var fmt := w[0] / 64;
      var n := PacketSize(fmt) - 1;
      if |w| < b + n then None
      else
        var q := Refresh(Resume(r, p, fmt, channel), w, b, n);
        if n >= 3 && q.timestamp == 0xffffff then
          if |w| < b + n + 4 then None
          else Some((Allocated(q.(timestamp := FromBe32(w, b + n)), fmt), b + n + 4))
        else Some((Allocated(q, fmt), b + n))
  }

  /** The packet after n payload bytes have been copied to where reading stopped. */
  function Filled(p: Packet, data: seq<Byte>): Packet
    requires p.Valid() && p.bytesRead + |data| <= p.bodySize
  {
    p.(bytesRead := p.bytesRead + |data|,
       body := if p.body.None? then None
               else Some(p.body.value[..p.bytesRead] + data + p.body.value[p.bytesRead + |data|..]))
  }

  /** The bookkeeping after a payload: remembers the packet, and on completion makes its timestamp
      absolute and resets the remembered copy, whose timestamp stays the transmitted field. */
  function Remember(r: Reader, p: Packet): (Reader, Packet) {
    if p.Ready() then
      var ts := if p.hasAbsTimestamp then p.timestamp else (p.timestamp + r.TimestampOf(p.channel)) % TWO32;
      (r.(channelsIn := r.channelsIn[p.channel := p.(body := None, bytesRead := 0, hasAbsTimestamp := false)],
          channelTimestamp := r.channelTimestamp[p.channel := ts]),
       p.(timestamp := ts))
    else (r.(channelsIn := r.channelsIn[p.channel := p]), p.(body := None))
  }

  lemma ReadHeaderValid(r: Reader, p: Packet, w: seq<Byte>)
    requires r.Valid() && p.Valid()
    ensures var h := ReadHeader(r, p, w);
            h.Some? ==> h.value.0.Valid() && h.value.1 <= |w| && (h.value.0.bodySize > 0 ==> h.value.0.body.Some?)
  {
  }

  /** RTMP_ReadPacket: None when the wire ends early, otherwise the new tables, the packet as the caller
      sees it and the number of bytes consumed. */
  function ReadChunk(r: Reader, p: Packet, w: seq<Byte>): (res: Option<(Reader, Packet, nat)>)
    requires r.Valid() && p.Valid()
    ensures res.Some? ==> res.value.0.Valid() && res.value.1.bytesRead <= res.value.1.bodySize && 0 < res.value.2 <= |w|
  {
    ReadHeaderValid(r, p, w);
    var header := ReadHeader(r, p, w);
    if header.None? then None
    else
      var (q, h) := header.value;
      var n := Min(r.chunkSize, q.bodySize - q.bytesRead);
      if |w| < h + n then None
      else
        var (r', p') := Remember(r, Filled(q, w[h..h + n]));
        Some((r', p', h + n))
  }
}
