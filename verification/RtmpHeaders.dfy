/** When a chunk header is shortened, and where its fields lie byte by byte (Adobe RTMP 1.0, section 5.3.1). */
module RtmpHeaders {
  import opened Bytes
  import opened RtmpChunkStream

  /** The header type for a message asked for with type asked after prev on its channel. A full header, or one
      without a predecessor, stays as asked. A type 1 header becomes type 2 exactly when length and type repeat
      but not the timestamp, and type 3 exactly when all three repeat; a type 2 header becomes type 3 exactly
      when the timestamp repeats. */
  predicate Shortened(asked: nat, prev: Option<Sent>, size: nat, packetType: Byte, timestamp: U32, fmt: nat) {
    && (asked == 0 || prev.None? ==> fmt == asked)
    && (asked == 1 && prev.Some? ==>
          var same := prev.value.bodySize == size && prev.value.packetType == packetType;
          && (fmt == 1 <==> !same)
          && (fmt == 2 <==> same && prev.value.timestamp != timestamp)
          && (fmt == 3 <==> same && prev.value.timestamp == timestamp))
    && (asked == 2 && prev.Some? ==>
          && (fmt == 2 <==> prev.value.timestamp != timestamp)
          && (fmt == 3 <==> prev.value.timestamp == timestamp))
    && (asked == 3 ==> fmt == 3)
  }

  lemma ShortenedExactly(prev: Option<Sent>, m: Message)
    ensures Shortened(m.headerType, prev, |m.body|, m.packetType, m.timestamp, Compressed(prev, m))
  {
  }

  /** Four bytes for a repeated header that differs in time only: 132 = 2 * 64 + 4 on channel 4. */
  lemma RepeatWithNewTime(body: seq<Byte>)
    requires |body| == 100
    ensures var h := FirstHeader(Some(Sent(100, 8, 1000)), Message(MEDIUM, 4, 1023, 8, 0, body));
            h == [132, 0, 0, 23]
  {
    var m := Message(MEDIUM, 4, 1023, 8, 0, body);
    assert Compressed(Some(Sent(100, 8, 1000)), m) == SMALL;
    assert MessageHeader(SMALL, 23, m) == [0, 0, 23];
  }

  lemma TopBits(fmt: HeaderType, low: nat)
    requires low < 64
    ensures (fmt * 64 + low) / 64 == fmt && (fmt * 64 + low) % 64 == low
  {
  }

  /** The top two bits of the first byte are the header type; the rest, and up to two further bytes, the channel. */
  lemma BasicBytes(fmt: HeaderType, channel: nat)
    requires 2 <= channel < RTMP_CHANNELS
    ensures var h := BasicHeader(fmt, channel);
            && |h| >= 1 && h[0] / 64 == fmt
            && (channel < 64 ==> |h| == 1 && h[0] % 64 == channel)
            && (64 <= channel < 320 ==> |h| == 2 && h[0] % 64 == 0 && h[1] == channel - 64)
            && (320 <= channel ==> |h| == 3 && h[0] % 64 == 1 && h[1] as int + 256 * h[2] as int == channel - 64)
  {
    TopBits(fmt, if channel > 319 then 1 else if channel > 63 then 0 else channel);
  }

  lemma FirstByte(prev: Option<Sent>, m: Message, chunkSize: ChunkSize)
    requires 2 <= m.channel < RTMP_CHANNELS
    ensures var w := Flatten(Chunks(prev, m, chunkSize));
            |w| > 0 && Shortened(m.headerType, prev, |m.body|, m.packetType, m.timestamp, w[0] / 64)
  {
    hide MessageHeader, ContinuationChunks, Compressed, TimestampField, BasicHeader;
    ShortenedExactly(prev, m);
    BasicBytes(Compressed(prev, m), m.channel);
  }

  /** The time since the predecessor, or since zero in a full header, modulo 2^32. */
  lemma TimeSent(prev: Option<Sent>, m: Message)
    ensures var t := TimestampField(prev, m);
            if prev.None? || m.headerType == 0 then t == m.timestamp
            else (prev.value.timestamp + t) % 0x1_0000_0000 == m.timestamp
  {
  }

  lemma TimePartBytes(fmt: HeaderType, t: U32)
    ensures fmt < 3 ==> |TimePart(fmt, t)| == 3 && Read3(TimePart(fmt, t), 0) == if t < 0xffffff then t else 0xffffff
    ensures fmt == 3 ==> TimePart(fmt, t) == []
  {
    hide Be24, Read3;
    Digits(if t > 0xffffff then 0xffffff else t);
  }

  lemma SizePartBytes(fmt: HeaderType, size: nat, packetType: Byte)
    requires size < 0x100_0000
    ensures fmt < 2 ==> var b := SizePart(fmt, size, packetType); |b| == 4 && Read3(b, 0) == size && b[3] == packetType
    ensures fmt >= 2 ==> SizePart(fmt, size, packetType) == []
  {
    hide Be24, Read3, Read4, Read4Le;
    if fmt < 2 {
      var b := SizePart(fmt, size, packetType);
      Digits(size);
      assert b[0..3] == Be24(size);
      ReadWhere(b, 0, Be24(size));
    }
  }

  lemma IdPartBytes(fmt: HeaderType, info: U32)
    ensures fmt == 0 ==> |IdPart(fmt, info)| == 4 && Read4Le(IdPart(fmt, info), 0) == info
    ensures fmt >= 1 ==> IdPart(fmt, info) == []
  {
    hide Le32, Read4Le;
    Digits(info);
  }

  /** Fields of the message header h, of type fmt, that follows the basic header. */
  lemma MessageBytes(fmt: HeaderType, t: U32, m: Message)
    requires |m.body| < 0x100_0000
    ensures var h := MessageHeader(fmt, t, m);
            && |h| == (if fmt == 0 then 11 else if fmt == 1 then 7 else if fmt == 2 then 3 else 0)
            && (fmt < 3 ==> Read3(h, 0) == if t < 0xffffff then t else 0xffffff)
            && (fmt < 2 ==> Read3(h, 3) == |m.body| && h[6] == m.packetType)
            && (fmt == 0 ==> Read4Le(h, 7) == m.info)
  {
    hide TimePart, SizePart, IdPart, Read3, Read4, Read4Le;
    var a, b, c := TimePart(fmt, t), SizePart(fmt, |m.body|, m.packetType), IdPart(fmt, m.info);
    var h := MessageHeader(fmt, t, m);
    TimePartBytes(fmt, t);
    SizePartBytes(fmt, |m.body|, m.packetType);
    IdPartBytes(fmt, m.info);
    Sections(a, b, c, []);
    assert a + b + c + [] == h;
    ReadWhere(h, 0, a);
    ReadWhere(h, |a|, b);
    ReadWhere(h, |a| + |b|, c);
    if fmt < 2 {
      assert h[3 + 3] == b[3];
    }
  }

  /** The whole first header: basic header, message header, and the time once more in four bytes when it does
      not fit in three. */
  lemma FirstHeaderBytes(prev: Option<Sent>, m: Message)
    requires 2 <= m.channel < RTMP_CHANNELS && |m.body| < 0x100_0000
    ensures var h, fmt, t := FirstHeader(prev, m), Compressed(prev, m), TimestampField(prev, m);
            var b := if m.channel < 64 then 1 else if m.channel < 320 then 2 else 3;
            var n := if fmt == 0 then 11 else if fmt == 1 then 7 else if fmt == 2 then 3 else 0;
            var extended := fmt < 3 && t >= 0xffffff;
            && |h| == b + n + (if extended then 4 else 0)
            && h[..b] == BasicHeader(fmt, m.channel) && h[b..b + n] == MessageHeader(fmt, t, m)
            && (extended ==> Read4(h, b + n) == t)
  {
    hide MessageHeader, Compressed, TimestampField, Be32, BasicHeader;
    var h, fmt, t := FirstHeader(prev, m), Compressed(prev, m), TimestampField(prev, m);
    var x, y, z := BasicHeader(fmt, m.channel), MessageHeader(fmt, t, m), ExtendedTimestamp(fmt, t);
    Sections(x, y, z, []);
    assert x + y + z + [] == h;
    Digits(t);
    if z != [] {
      var i := |x| + |y|;
      assert h[i] == z[0] && h[i + 1] == z[1] && h[i + 2] == z[2] && h[i + 3] == z[3];
    }
  }

  /** Every further chunk starts with a type 3 header; all but the last carry a chunk's worth of the body, the
      last what is left. */
  lemma {:induction false} ContinuationShape(channel: nat, rest: seq<Byte>, chunkSize: ChunkSize, i: nat)
    requires 2 <= channel < RTMP_CHANNELS && i < |ContinuationChunks(channel, rest, chunkSize)|
    ensures var cs := ContinuationChunks(channel, rest, chunkSize);
            var b := if channel < 64 then 1 else if channel < 320 then 2 else 3;
            && b < |cs[i]| <= b + chunkSize && cs[i][0] / 64 == 3 && cs[i][..b] == BasicHeader(3, channel)
            && (i + 1 < |cs| ==> |cs[i]| == b + chunkSize)
    decreases i
  {
    hide BasicHeader;
    var n := Min(chunkSize, |rest|);
    BasicBytes(3, channel);
    if i > 0 {
      ContinuationShape(channel, rest[n..], chunkSize, i - 1);
    }
  }

  // ----- what the reader makes of any bytes -----

  /** Basic header: its length and the channel, in bytes. */
  predicate StartsOn(w: seq<Byte>, b: nat, channel: nat) {
    && |w| >= b >= 1
    && (w[0] % 64 == 0 ==> b == 2 && channel == w[1] as int + 64)
    && (w[0] % 64 == 1 ==> b == 3 && channel == w[1] as int + 256 * w[2] as int + 64)
    && (w[0] % 64 >= 2 ==> b == 1 && channel == w[0] % 64)
  }

  lemma BasicRead(w: seq<Byte>, b: nat, channel: nat)
    ensures StartsOn(w, b, channel) <==> DecodeBasic(w) == Some((channel, b))
  {
  }

  /** The packet the fields of a header are put into: the one remembered for the channel, unless the header is a
      full one or there is none. */
  function Base(r: Reader, p: Packet, fmt: nat, channel: nat): Packet {
    if fmt != 0 && channel in r.channelsIn then r.channelsIn[channel] else p
  }

  /** What reading a header of type fmt behind a basic header of b bytes leaves: the fields present come from the
      bytes, the others from the packet resumed, and a missing body is allocated. */
  ghost predicate FieldsRead(r: Reader, p: Packet, w: seq<Byte>, b: nat, channel: nat, q: Packet, used: nat) {
    && |w| >= 1
    && var fmt := w[0] / 64;
    && var n := if fmt == 0 then 11 else if fmt == 1 then 7 else if fmt == 2 then 3 else 0;
    && |w| >= b + n
    && var base := Base(r, p, fmt, channel);
    && var extended := fmt < 3 && Read3(w, b) == 0xffffff;
    && used == b + n + (if extended then 4 else 0) <= |w|
    && q.channel == (if fmt != 0 && channel in r.channelsIn then base.channel else channel)
    && q.hasAbsTimestamp == (fmt == 0 || base.hasAbsTimestamp)
    && q.timestamp == (if fmt == 3 then base.timestamp else if extended then Read4(w, b + n) else Read3(w, b))
    && q.bodySize == (if fmt < 2 then Read3(w, b + 3) else base.bodySize)
    && q.packetType == (if fmt < 2 then w[b + 6] else base.packetType)
    && q.info == (if fmt == 0 then Read4Le(w, b + 7) else base.info)
    && var resumed := if fmt < 2 then None else base.body;
    && q.body == (if q.bodySize > 0 && resumed.None? then Some(seq(q.bodySize, _ => 0)) else resumed)
    && q.bytesRead == (if fmt < 2 || (q.bodySize > 0 && resumed.None?) then 0 else base.bytesRead)
  }

  lemma RefreshRead(p: Packet, w: seq<Byte>, b: nat, n: nat)
    requires b + n <= |w| && (n == 11 || n == 7 || n == 3 || n == 0)
    ensures var q := Refresh(p, w, b, n);
            && q.channel == p.channel && q.hasAbsTimestamp == p.hasAbsTimestamp && q.headerType == p.headerType
            && q.timestamp == (if n >= 3 then Read3(w, b) else p.timestamp)
            && q.bodySize == (if n >= 7 then Read3(w, b + 3) else p.bodySize)
            && q.packetType == (if n >= 7 then w[b + 6] else p.packetType)
            && q.info == (if n == 11 then Read4Le(w, b + 7) else p.info)
            && q.body == (if n >= 7 then None else p.body) && q.bytesRead == (if n >= 7 then 0 else p.bytesRead)
  {
    hide FromBe24, FromBe32, FromLe32, Read3, Read4, Read4Le;
    DigitsRead(w, b);
    DigitsRead(w, b + 3);
    DigitsRead(w, b + 7);
  }

  /** A header is read exactly as its bytes say. */
  lemma HeaderRead(r: Reader, p: Packet, w: seq<Byte>, b: nat, channel: nat)
    requires StartsOn(w, b, channel) && ReadHeader(r, p, w).Some?
    ensures var (q, used) := ReadHeader(r, p, w).value; FieldsRead(r, p, w, b, channel, q, used)
  {
    hide DecodeBasic, Refresh, FromBe24, FromBe32, FromLe32, Read3, Read4, Read4Le;
    BasicRead(w, b, channel);
    var fmt := w[0] / 64;
    var n := PacketSize(fmt) - 1;
    RefreshRead(Resume(r, p, fmt, channel), w, b, n);
    DigitsRead(w, b + n);
  }

  /** It fails exactly when the bytes end before it does. */
  lemma HeaderCutOff(r: Reader, p: Packet, w: seq<Byte>)
    ensures ReadHeader(r, p, w).None? <==>
              || |w| < 1
              || var fmt, low := w[0] / 64, w[0] % 64;
                 var b := if low == 0 then 2 else if low == 1 then 3 else 1;
                 var n := if fmt == 0 then 11 else if fmt == 1 then 7 else if fmt == 2 then 3 else 0;
                 |w| < b + n || (fmt < 3 && Read3(w, b) == 0xffffff && |w| < b + n + 4)
  {
  }

  /** A chunk is its header and as much of the body as is missing, at most a chunk's worth; reading it fails
      exactly when the bytes end before that. */
  lemma ChunkCutOff(r: Reader, p: Packet, w: seq<Byte>)
    requires r.Valid() && p.Valid()
    ensures var h := ReadHeader(r, p, w);
            if h.None? then ReadChunk(r, p, w).None?
            else
              var (q, used) := h.value;
              var missing := q.bodySize - q.bytesRead;
              var n := if r.chunkSize < missing then r.chunkSize else missing;
              && (ReadChunk(r, p, w).Some? <==> |w| >= used + n)
              && (|w| >= used + n ==> ReadChunk(r, p, w).value.2 == used + n)
  {
    hide ReadHeader, Remember;
    ReadHeaderValid(r, p, w);
  }
}
