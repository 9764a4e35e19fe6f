/** RTMP_SendPacket and RTMP_ReadPacket as they run: an in-place body buffer with room for headers in
    front of it, chunk headers written over body bytes that have already gone out, channel tables
    updated per packet. Each method is tied to the chunk stream on values. */
module RtmpEndpoint {
  import opened AmfIntegers
  import opened Arithmetic
  import opened Bytes
  import opened RtmpChunkStream
  import opened RtmpHeaders

  /** RTMPPacket as the sender's caller fills it. m_body is mem[RTMP_MAX_HEADER_SIZE..] (RTMPPacket_Alloc),
      or NULL when mem is null. */
  class OutPacket {
    var headerType: Byte
    var packetType: Byte
    var channel: nat
    var timestamp: U32
    var info: U32
    var bodySize: nat
    var mem: array?<Byte>

    constructor (headerType: Byte, packetType: Byte, channel: nat, timestamp: U32, info: U32,
                 bodySize: nat, mem: array?<Byte>)
      ensures this.headerType == headerType && this.packetType == packetType && this.channel == channel
      ensures this.timestamp == timestamp && this.info == info && this.bodySize == bodySize && this.mem == mem
    {
      this.headerType, this.packetType, this.channel := headerType, packetType, channel;
      this.timestamp, this.info, this.bodySize, this.mem := timestamp, info, bodySize, mem;
    }

    ghost predicate Valid()
      reads this
    {
      && channel < RTMP_CHANNELS
      && (mem == null ==> bodySize == 0)
      && (mem != null ==> RTMP_MAX_HEADER_SIZE + bodySize <= mem.Length)
    }

    ghost function Body(): (b: seq<Byte>)
      reads this, mem
      requires Valid()
      ensures |b| == bodySize
    {
      if mem == null then [] else mem[RTMP_MAX_HEADER_SIZE..RTMP_MAX_HEADER_SIZE + bodySize]
    }

    /** The message this packet asks for. */
    ghost function Request(): Message
      reads this, mem
      requires Valid() && headerType <= MINIMUM
    {
      Message(headerType, channel, timestamp, packetType, info, Body())
    }
  }

  /** What is still to be sent: a header in front of the rest of the body. */
  function Pending(header: seq<Byte>, rest: seq<Byte>, channel: nat, chunkSize: ChunkSize): seq<Byte> {
    var n := Min(chunkSize, |rest|);
    header + rest[..n] + Flatten(ContinuationChunks(channel, rest[n..], chunkSize))
  }

  /** Body bytes plus a continuation header for every chunk but the first. */
  lemma {:induction false} PendingLength(header: seq<Byte>, rest: seq<Byte>, channel: nat, chunkSize: ChunkSize)
    ensures |Pending(header, rest, channel, chunkSize)|
            <= |header| + |rest| + (|rest| + chunkSize - 1) / chunkSize * (1 + ChannelBytes(channel))
    decreases |rest|
  {
    var n := Min(chunkSize, |rest|);
    if rest[n..] != [] {
      ContinuationIsPending(rest[n..], channel, chunkSize);
      PendingLength(BasicHeader(MINIMUM, channel), rest[n..], channel, chunkSize);
      Ceiling(|rest|, chunkSize, 1 + ChannelBytes(channel));
    } else {
      assert |Pending(header, rest, channel, chunkSize)| == |header| + |rest|;
      Ceiling(|rest|, chunkSize, 1 + ChannelBytes(channel));
    }
  }

  lemma Ceiling(size: nat, chunk: ChunkSize, k: nat)
    ensures (size + chunk - 1) / chunk * k >= 0
    ensures size > chunk ==> (size + chunk - 1) / chunk * k == k + (size - chunk + chunk - 1) / chunk * k
  {
    var q := (size + chunk - 1) / chunk;
    assert q >= 0;
    assert q * k >= 0;
    if size > chunk {
      assert (size + chunk - 1 - chunk) / chunk == q - 1 by {
        DivShift(size - 1, chunk);
      }
      assert q * k == k + (q - 1) * k;
    }
  }

  lemma ContinuationIsPending(rest: seq<Byte>, channel: nat, chunkSize: ChunkSize)
    requires rest != []
    ensures Flatten(ContinuationChunks(channel, rest, chunkSize))
            == Pending(BasicHeader(MINIMUM, channel), rest, channel, chunkSize)
  {
  }

  /** Sending one chunk moves it from what is pending to what is out. */
  lemma PendingStep(out: seq<Byte>, header: seq<Byte>, rest: seq<Byte>, channel: nat, chunkSize: ChunkSize,
                    data: seq<Byte>, header': seq<Byte>)
    requires var n := Min(chunkSize, |rest|);
             data == header + rest[..n] && header' == if n == |rest| then [] else BasicHeader(MINIMUM, channel)
    ensures out + Pending(header, rest, channel, chunkSize)
            == out + data + (if |header'| == 0 then []
                             else Pending(header', rest[Min(chunkSize, |rest|)..], channel, chunkSize))
  {
    var n := Min(chunkSize, |rest|);
    if n < |rest| {
      ContinuationIsPending(rest[n..], channel, chunkSize);
    }
    ConcatAssoc(out, data, Flatten(ContinuationChunks(channel, rest[n..], chunkSize)));
  }

  lemma WholeMessage(prev: Option<Sent>, m: Message, chunkSize: ChunkSize)
    ensures Flatten(Chunks(prev, m, chunkSize)) == Pending(FirstHeader(prev, m), m.body, m.channel, chunkSize)
  {
    var n := Min(chunkSize, |m.body|);
    var cs := ContinuationChunks(m.channel, m.body[n..], chunkSize);
    assert Chunks(prev, m, chunkSize)[1..] == cs;
  }

  /** The basic header, written byte by byte. */
  method WriteBasicHeader(mem: array<Byte>, at: nat, fmt: HeaderType, channel: nat) returns (next: nat)
    requires channel < RTMP_CHANNELS && at + 1 + ChannelBytes(channel) <= mem.Length
    modifies mem
    ensures next == at + |BasicHeader(fmt, channel)|
    ensures mem[..] == Splice(old(mem[..]), at, BasicHeader(fmt, channel))
  {
    var cSize := ChannelBytes(channel);
    var c: int := fmt * 64;
    if cSize == 0 {
      c := c + channel;
    } else if cSize == 2 {
      c := c + 1;
    }
    mem[at] := c;
    next := at + 1;
    if cSize != 0 {
      var tmp := channel - 64;
      mem[next] := tmp % 256;
      next := next + 1;
      if cSize == 2 {
        mem[next] := tmp / 256;
        next := next + 1;
      }
    }
    SpliceAt(old(mem[..]), at, BasicHeader(fmt, channel), mem[..]);
  }

  method EncodeInt32LE(mem: array<Byte>, output: nat, v: U32) returns (next: nat)
    requires output + 4 <= mem.Length
    modifies mem
    ensures next == output + 4
    ensures mem[..] == Splice(old(mem[..]), output, Le32(v))
  {
    var n: int := v;
    mem[output] := n % 0x100;
    n := n / 0x100;
    mem[output + 1] := n % 0x100;
    n := n / 0x100;
    mem[output + 2] := n % 0x100;
    n := n / 0x100;
    mem[output + 3] := n % 0x100;
    ByteDigits(v);
    ByteDigits(v / 0x100);
    SpliceAt(old(mem[..]), output, Le32(v), mem[..]);
    return output + 4;
  }

  method WriteTime(mem: array<Byte>, at: nat, hend: nat, fmt: HeaderType, t: U32) returns (next: nat)
    requires at + |TimePart(fmt, t)| <= hend <= mem.Length
    modifies mem
    ensures next == at + |TimePart(fmt, t)|
    ensures mem[..] == Splice(old(mem[..]), at, TimePart(fmt, t))
  {
    if PacketSize(fmt) > 1 {
      var r := EncodeInt24(mem, at, hend, if t > 0xffffff then 0xffffff else t);
      return r.value;
    }
    SpliceNothing(mem[..], at);
    return at;
  }

  method WriteSizeAndType(mem: array<Byte>, at: nat, hend: nat, fmt: HeaderType, bodySize: nat, packetType: Byte)
    returns (next: nat)
    requires at + |SizePart(fmt, bodySize, packetType)| <= hend <= mem.Length
    modifies mem
    ensures next == at + |SizePart(fmt, bodySize, packetType)|
    ensures mem[..] == Splice(old(mem[..]), at, SizePart(fmt, bodySize, packetType))
  {
    if PacketSize(fmt) > 4 {
      ghost var was, size := mem[..], Be24(bodySize % 0x100_0000);
      var r := EncodeInt24(mem, at, hend, bodySize % 0x100_0000);
      next := r.value;
      mem[next] := packetType;
      SpliceAt(Splice(was, at, size), at + 3, [packetType], mem[..]);
      SpliceTwice(was, at, size, [packetType]);
      return next + 1;
    }
    SpliceNothing(mem[..], at);
    return at;
  }

  method WriteId(mem: array<Byte>, at: nat, hend: nat, fmt: HeaderType, info: U32) returns (next: nat)
    requires at + |IdPart(fmt, info)| <= hend <= mem.Length
    modifies mem
    ensures next == at + |IdPart(fmt, info)|
    ensures mem[..] == Splice(old(mem[..]), at, IdPart(fmt, info))
  {
    if PacketSize(fmt) > 8 {
      next := EncodeInt32LE(mem, at, info);
      return;
    }
    SpliceNothing(mem[..], at);
    return at;
  }

  method WriteExtendedTimestamp(mem: array<Byte>, at: nat, hend: nat, fmt: HeaderType, t: U32) returns (next: nat)
    requires at + |ExtendedTimestamp(fmt, t)| <= hend <= mem.Length
    modifies mem
    ensures next == at + |ExtendedTimestamp(fmt, t)|
    ensures mem[..] == Splice(old(mem[..]), at, ExtendedTimestamp(fmt, t))
  {
    if PacketSize(fmt) > 1 && t >= 0xffffff {
      var r := EncodeInt32(mem, at, hend, t);
      return r.value;
    }
    SpliceNothing(mem[..], at);
    return at;
  }

  function WholeHeader(fmt: HeaderType, t: U32, m: Message): (h: seq<Byte>)
    ensures |h| == ChannelBytes(m.channel) + PacketSize(fmt) + |ExtendedTimestamp(fmt, t)|
  {
    BasicHeader(fmt, m.channel) + MessageHeader(fmt, t, m) + ExtendedTimestamp(fmt, t)
  }

  method WriteMessageHeader(mem: array<Byte>, at: nat, hend: nat, fmt: HeaderType, t: U32, bodySize: nat,
                            packetType: Byte, info: U32, ghost m: Message) returns (next: nat)
    requires m.packetType == packetType && m.info == info && |m.body| == bodySize
    requires at + |MessageHeader(fmt, t, m)| <= hend <= mem.Length
    modifies mem
    ensures next == at + |MessageHeader(fmt, t, m)|
    ensures mem[..] == Splice(old(mem[..]), at, MessageHeader(fmt, t, m))
  {
    ghost var was, time := mem[..], TimePart(fmt, t);
    ghost var size, id := SizePart(fmt, bodySize, packetType), IdPart(fmt, info);
    next := WriteTime(mem, at, hend, fmt, t);
    next := WriteSizeAndType(mem, next, hend, fmt, bodySize, packetType);
    SpliceTwice(was, at, time, size);
    next := WriteId(mem, next, hend, fmt, info);
    SpliceTwice(was, at, time + size, id);
  }

  /** The header of a message's first chunk. No write passes hend. */
  method WriteFirstHeader(mem: array<Byte>, at: nat, hend: nat, fmt: HeaderType, t: U32, channel: nat, bodySize: nat,
                          packetType: Byte, info: U32, ghost m: Message) returns (next: nat)
    requires m.channel == channel < RTMP_CHANNELS && m.packetType == packetType
    requires m.info == info && |m.body| == bodySize
    requires at + |WholeHeader(fmt, t, m)| <= hend <= mem.Length
    modifies mem
    ensures next == at + |WholeHeader(fmt, t, m)|
    ensures mem[..] == Splice(old(mem[..]), at, WholeHeader(fmt, t, m))
  {
    hide BasicHeader, MessageHeader, ExtendedTimestamp, Splice;
    ghost var was, basic, msg := mem[..], BasicHeader(fmt, channel), MessageHeader(fmt, t, m);
    next := WriteBasicHeader(mem, at, fmt, channel);
    next := WriteMessageHeader(mem, next, hend, fmt, t, bodySize, packetType, info, m);
    SpliceTwice(was, at, basic, msg);
    next := WriteExtendedTimestamp(mem, next, hend, fmt, t);
    SpliceTwice(was, at, basic + msg, ExtendedTimestamp(fmt, t));
  }

  /** In memory s, header bytes hdr lie at position at with the rest of the body right behind them. */
  ghost predicate LiesAt(s: seq<Byte>, at: nat, hdr: seq<Byte>, rest: seq<Byte>) {
    && at + |hdr| + |rest| <= |s|
    && s[at..at + |hdr|] == hdr
    && s[at + |hdr|..at + |hdr| + |rest|] == rest
  }

  lemma ChunkWindow(s: seq<Byte>, at: nat, hdr: seq<Byte>, rest: seq<Byte>, n: nat)
    requires LiesAt(s, at, hdr, rest) && n <= |rest|
    ensures at + |hdr| + |rest| <= |s|
    ensures s[at..at + |hdr| + n] == hdr + rest[..n]
    ensures LiesAt(s, at + |hdr| + n, [], rest[n..])
  {
  }

  lemma HeaderOver(s: seq<Byte>, buffer: nat, hdr: seq<Byte>, rest: seq<Byte>)
    requires LiesAt(s, buffer, [], rest) && |hdr| <= buffer
    ensures LiesAt(Splice(s, buffer - |hdr|, hdr), buffer - |hdr|, hdr, rest)
  {
  }

  /** Writes the header of the next chunk over the bytes in front of buffer, which have been sent. */
  method NextHeader(mem: array<Byte>, buffer: nat, size: nat, channel: nat, ghost rest: seq<Byte>)
    returns (header: nat, hSize: nat, ghost hdr: seq<Byte>)
    requires channel < RTMP_CHANNELS && size == |rest| && LiesAt(mem[..], buffer, [], rest)
    requires size > 0 ==> 3 <= buffer
    modifies mem
    ensures hdr == (if size == 0 then [] else BasicHeader(MINIMUM, channel)) && hSize == |hdr|
    ensures header + hSize == buffer && LiesAt(mem[..], header, hdr, rest)
  {
    if size > 0 {
      hdr := BasicHeader(MINIMUM, channel);
      hSize := 1 + ChannelBytes(channel);
      header := buffer - hSize;
      HeaderOver(mem[..], buffer, hdr, rest);
      var _ := WriteBasicHeader(mem, header, MINIMUM, channel);
    } else {
      header, hSize, hdr := buffer, 0, [];
    }
  }

  lemma RefreshSlice(p: Packet, w: seq<Byte>, b: nat, n: nat)
    requires b + n <= |w|
    ensures Refresh(p, w[b..b + n], 0, n) == Refresh(p, w, b, n)
  {
    hide FromBe32;
    var h := w[b..b + n];
    assert forall k :: 0 <= k < n ==> h[k] == w[b + k];
  }

  lemma ExtendedSlice(w: seq<Byte>, i: nat)
    requires i + 4 <= |w|
    ensures FromBe32(w[i..i + 4], 0) == FromBe32(w, i)
  {
    var h := w[i..i + 4];
    assert h[0] == w[i] && h[1] == w[i + 1] && h[2] == w[i + 2] && h[3] == w[i + 3];
  }

  lemma ByteAfter(was: seq<Byte>, w: seq<Byte>)
    requires |w| > 0
    ensures (was + w)[|was|] == w[0]
  {
  }

  /** RTMP's send and receive state, with WriteN and ReadN as a perfect byte stream. */
  class RTMP {
    var channelsOut: map<nat, Sent>
    var channelsIn: map<nat, Packet>
    var channelTimestamp: map<nat, U32>
    var outChunkSize: nat
    var inChunkSize: nat
    var http: bool
    var sent: seq<Byte>
    var incoming: seq<Byte>

    constructor (http: bool)
      ensures channelsOut == map[] && Reading() == Reader(map[], map[], 128)
      ensures outChunkSize == 128 && sent == [] && incoming == [] && this.http == http
    {
      channelsOut, channelsIn, channelTimestamp := map[], map[], map[];
      outChunkSize, inChunkSize := 128, 128;
      this.http, sent, incoming := http, [], [];
    }

    function Reading(): Reader
      reads this
    {
      Reader(channelsIn, channelTimestamp, inChunkSize)
    }

    function PreviousOn(channel: nat): Option<Sent>
      reads this
    {
      if channel in channelsOut then Some(channelsOut[channel]) else None
    }

    /** Header compression against the previous packet of the channel; returns the last timestamp. */
    method Compress(packet: OutPacket) returns (last: U32)
      requires packet.Valid()
      modifies packet`headerType
      ensures old(packet.headerType) > MINIMUM ==> packet.headerType > MINIMUM
      ensures old(packet.headerType) <= MINIMUM ==>
                && packet.headerType == Compressed(PreviousOn(packet.channel), old(packet.Request()))
                && (packet.timestamp - last) % TWO32
                   == TimestampField(PreviousOn(packet.channel), old(packet.Request()))
      ensures old(packet.headerType) <= MINIMUM ==>
                Shortened(old(packet.headerType), PreviousOn(packet.channel), packet.bodySize, packet.packetType,
                          packet.timestamp, packet.headerType)
    {
      last := 0;
      if packet.channel in channelsOut && packet.headerType != LARGE {
        var prev := channelsOut[packet.channel];
        if prev.bodySize == packet.bodySize && prev.packetType == packet.packetType && packet.headerType == MEDIUM {
          packet.headerType := SMALL;
        }
        if prev.timestamp == packet.timestamp && packet.headerType == SMALL {
          packet.headerType := MINIMUM;
        }
        last := prev.timestamp;
      }
    }

    /** The first header in front of the body, or in a scratch buffer when there is none. */
    static method PutFirstHeader(packet: OutPacket, t: U32, ghost prev: Option<Sent>, ghost m: Message)
      returns (mem: array<Byte>, header: nat, hSize: nat)
      requires packet.Valid() && packet.headerType <= MINIMUM && packet.channel == m.channel && packet.info == m.info
      requires packet.packetType == m.packetType && packet.Body() == m.body
      requires packet.headerType == Compressed(prev, m) && t == TimestampField(prev, m)
      modifies if packet.mem == null then {} else {packet.mem}
      ensures if packet.mem == null then fresh(mem) else mem == packet.mem
      ensures hSize == |FirstHeader(prev, m)| > 0 && 3 <= header + hSize
      ensures LiesAt(mem[..], header, FirstHeader(prev, m), m.body)
    {
      hide MessageHeader, BasicHeader, ExtendedTimestamp, Compressed, TimestampField;
      var fmt: HeaderType := packet.headerType;
      var cSize := ChannelBytes(packet.channel);
      hSize := PacketSize(fmt) + cSize + (if PacketSize(fmt) > 1 && t >= 0xffffff then 4 else 0);
      if packet.mem != null {
        mem, header := packet.mem, RTMP_MAX_HEADER_SIZE - hSize;
      } else {
        mem := new Byte[RTMP_MAX_HEADER_SIZE](_ => 0);
        header := 6 + PacketSize(fmt) - hSize;
      }
      ghost var was := mem[..];
      var hptr := WriteFirstHeader(mem, header, RTMP_MAX_HEADER_SIZE, fmt, t, packet.channel, packet.bodySize,
                                   packet.packetType, packet.info, m);
      assert packet.mem != null ==> hptr == RTMP_MAX_HEADER_SIZE;
      HeaderOver(was, hptr, FirstHeader(prev, m), m.body);
    }

    /** The body's buffer is the only one the chunk loop may write besides a scratch header. */
    method SendPacket(packet: OutPacket) returns (ok: bool)
      requires packet.Valid() && outChunkSize > 0
      modifies this`channelsOut, this`sent, packet`headerType, if packet.mem == null then {} else {packet.mem}
      ensures ok == old(packet.headerType <= MINIMUM)
      ensures !ok ==> sent == old(sent) && channelsOut == old(channelsOut)
      ensures ok ==>
                && var m := old(packet.Request());
                && packet.headerType == Compressed(old(PreviousOn(packet.channel)), m)
                && sent == old(sent) + Flatten(Chunks(old(PreviousOn(packet.channel)), m, outChunkSize))
                && channelsOut == old(channelsOut)[packet.channel := SentOf(m)]
      ensures ok && packet.channel >= 2 ==>
                && |sent| > |old(sent)|
                && Shortened(old(packet.headerType), old(PreviousOn(packet.channel)), packet.bodySize,
                             packet.packetType, packet.timestamp, sent[|old(sent)|] / 64)
    {
      hide FirstHeader, Pending, Flatten, Chunks, Compressed, TimestampField, Shortened, LiesAt;
      ghost var prev := PreviousOn(packet.channel);
      var last := Compress(packet);
      if packet.headerType > 3 {
        return false;
      }
      ghost var m := old(packet.Request());
      var t: U32 := (packet.timestamp - last) % TWO32;
      var mem, header, hSize := PutFirstHeader(packet, t, prev, m);
      WholeMessage(prev, m, outChunkSize);
      SendChunks(mem, header, hSize, packet.bodySize, packet.channel, m.body, FirstHeader(prev, m));
      channelsOut := channelsOut[packet.channel := Sent(packet.bodySize, packet.packetType, packet.timestamp)];
      if packet.channel >= 2 {
        FirstByte(prev, m, outChunkSize);
        ByteAfter(old(sent), Flatten(Chunks(prev, m, outChunkSize)));
      }
      return true;
    }

    /** One chunk goes to the collecting buffer if there is one, else straight out. */
    method Emit(tbuf: array?<Byte>, toff: nat, data: seq<Byte>) returns (next: nat)
      requires tbuf != null ==> toff + |data| <= tbuf.Length
      modifies this`sent, if tbuf == null then {} else {tbuf}
      ensures tbuf == null ==> sent == old(sent) + data && next == toff
      ensures tbuf != null ==> sent == old(sent) && next == toff + |data| && tbuf[..next] == old(tbuf[..toff]) + data
    {
      if tbuf != null {
        Copy(tbuf, toff, data);
        assert Splice(old(tbuf[..]), toff, data)[..toff + |data|] == old(tbuf[..toff]) + data;
        return toff + |data|;
      }
      sent := sent + data;
      return toff;
    }

    /** Over HTTP a message of several chunks is first collected in one buffer of tlen bytes. */
    method SendChunks(mem: array<Byte>, at: nat, headerSize: nat, size: nat, channel: nat,
                      ghost body: seq<Byte>, ghost first: seq<Byte>)
      requires outChunkSize > 0 && channel < RTMP_CHANNELS && 0 < headerSize && 3 <= at + headerSize
      requires LiesAt(mem[..], at, first, body) && |first| == headerSize && |body| == size
      modifies mem, this`sent
      ensures sent == old(sent) + Pending(first, body, channel, outChunkSize)
    {
      hide Pending, LiesAt;
      var tbuf: array?<Byte> := null;
      if http {
        var chunks := (size + outChunkSize - 1) / outChunkSize;
        if chunks > 1 {
          PendingLength(first, body, channel, outChunkSize);
          tbuf := new Byte[chunks * (ChannelBytes(channel) + 1) + size + headerSize](_ => 0);
        }
      }
      var toff := ChunkLoop(mem, at, headerSize, size, channel, tbuf, body, first);
      if tbuf != null {
        sent := sent + tbuf[..toff];
      }
    }

    /** The chunk loop: sends hSize header bytes and nSize body bytes that lie behind one another, writing
        each further header over body bytes already sent. A collecting buffer is never overrun. */
    method ChunkLoop(mem: array<Byte>, at: nat, headerSize: nat, size: nat, channel: nat, tbuf: array?<Byte>,
                     ghost body: seq<Byte>, ghost first: seq<Byte>) returns (toff: nat)
      requires outChunkSize > 0 && channel < RTMP_CHANNELS && 0 < headerSize && 3 <= at + headerSize
      requires LiesAt(mem[..], at, first, body) && |first| == headerSize && |body| == size
      requires tbuf != null ==> tbuf != mem && |Pending(first, body, channel, outChunkSize)| <= tbuf.Length
      modifies mem, this`sent, if tbuf == null then {} else {tbuf}
      ensures tbuf == null ==> sent == old(sent) + Pending(first, body, channel, outChunkSize)
      ensures tbuf != null ==> sent == old(sent) && toff <= tbuf.Length
                               && tbuf[..toff] == Pending(first, body, channel, outChunkSize)
    {
      hide Pending, LiesAt, BasicHeader, ChannelBytes, ContinuationChunks, Flatten;
      ghost var total := Pending(first, body, channel, outChunkSize);
      var header: nat, hSize, nSize, nChunkSize := at, headerSize, size, outChunkSize;
      ghost var hdr, rest, out := first, body, [];
      toff := 0;
      while nSize + hSize != 0
        invariant nSize == |rest| && hSize == |hdr| && LiesAt(mem[..], header, hdr, rest)
        invariant hSize == 0 ==> nSize == 0
        invariant nSize > 0 ==> 3 <= header + hSize && nChunkSize == outChunkSize
        invariant nSize == 0 ==> 0 <= nChunkSize
        invariant total == out + (if hSize == 0 then [] else Pending(hdr, rest, channel, outChunkSize))
        invariant tbuf == null ==> sent == old(sent) + out
        invariant tbuf != null ==> sent == old(sent) && toff == |out| <= tbuf.Length && tbuf[..toff] == out
        decreases nSize, hSize
      {
        if nSize < nChunkSize {
          nChunkSize := nSize;
        }
        ghost var next := if nSize == nChunkSize then [] else BasicHeader(MINIMUM, channel);
        ghost var data := hdr + rest[..nChunkSize];
        PendingStep(out, hdr, rest, channel, outChunkSize, data, next);
        out := out + data;
        assert |out| <= |total|;
        header, hSize, toff := OneChunk(mem, header, hSize, nSize, nChunkSize, channel, tbuf, toff, hdr, rest);
        nSize := nSize - nChunkSize;
        hdr, rest := next, rest[nChunkSize..];
      }
    }

    /** One turn of the chunk loop. */
    method OneChunk(mem: array<Byte>, at: nat, headerSize: nat, size: nat, n: nat, channel: nat,
                    tbuf: array?<Byte>, toff: nat, ghost hdr: seq<Byte>, ghost rest: seq<Byte>)
      returns (header: nat, hSize: nat, next: nat)
      requires channel < RTMP_CHANNELS && n <= size == |rest| && headerSize == |hdr|
      requires LiesAt(mem[..], at, hdr, rest) && (size > 0 ==> 3 <= at + headerSize)
      requires tbuf != null ==> tbuf != mem && toff + headerSize + n <= tbuf.Length
      modifies mem, this`sent, if tbuf == null then {} else {tbuf}
      ensures LiesAt(mem[..], header, if size == n then [] else BasicHeader(MINIMUM, channel), rest[n..])
      ensures hSize == |if size == n then [] else BasicHeader(MINIMUM, channel)|
      ensures size > n ==> 3 <= header + hSize
      ensures tbuf == null ==> sent == old(sent) + (hdr + rest[..n]) && next == toff
      ensures tbuf != null ==> sent == old(sent) && next == toff + headerSize + n
                               && tbuf[..next] == old(tbuf[..toff]) + (hdr + rest[..n])
    {
      hide LiesAt;
      ChunkWindow(mem[..], at, hdr, rest, n);
      next := Emit(tbuf, toff, mem[at..at + headerSize + n]);
      ghost var hdr';
      header, hSize, hdr' := NextHeader(mem, at + headerSize + n, size - n, channel, rest[n..]);
    }

    /** ReadN on a perfect byte stream: all n bytes, or none once the stream has ended. */
    method ReadN(n: nat) returns (data: Option<seq<Byte>>)
      modifies this`incoming
      ensures if |old(incoming)| < n then data == None
              else data == Some(old(incoming)[..n]) && incoming == old(incoming)[n..]
    {
      if |incoming| < n {
        incoming := [];
        return None;
      }
      data := Some(incoming[..n]);
      incoming := incoming[n..];
    }

    /** The one to three bytes that give header type and channel. */
    method ReadBasic() returns (fmt: HeaderType, channel: Option<nat>)
      modifies this`incoming
      ensures var basic := DecodeBasic(old(incoming));
              if basic.None? then channel == None
              else channel == Some(basic.value.0) && fmt == old(incoming)[0] / 64
                   && incoming == old(incoming)[basic.value.1..]
    {
      fmt, channel := 0, None;
      var first := ReadN(1);
      if first.None? {
        return;
      }
      fmt := first.value[0] / 64;
      var low := first.value[0] % 64;
      if low == 0 {
        var more := ReadN(1);
        if more.Some? {
          channel := Some(more.value[0] as int + 64);
        }
      } else if low == 1 {
        var more := ReadN(2);
        if more.Some? {
          channel := Some(more.value[1] as int * 256 + more.value[0] as int + 64);
        }
      } else {
        channel := Some(low);
      }
    }

    /** Header of the next chunk: the packet it starts or resumes, with storage for its body. */
    method ReadChunkHeader(packet: Packet) returns (res: Option<Packet>)
      modifies this`incoming
      ensures var h := ReadHeader(Reading(), packet, old(incoming));
              if h.None? then res == None
              else res == Some(h.value.0) && h.value.1 <= |old(incoming)| && incoming == old(incoming)[h.value.1..]
    {
      hide Refresh, FromBe32, FromBe24, FromLe32, DecodeBasic;
      ghost var w := incoming;
      var fmt, channel := ReadBasic();
      if channel.None? {
        return None;
      }
      ghost var b := DecodeBasic(w).value.1;
      var p := packet.(headerType := fmt, channel := channel.value);
      var nSize := PacketSize(fmt);
      if nSize == 12 {
        p := p.(hasAbsTimestamp := true);
      } else if channel.value in channelsIn {
        p := channelsIn[channel.value];
      }
      nSize := nSize - 1;
      var header := [];
      if nSize > 0 {
        var h := ReadN(nSize);
        if h.None? {
          return None;
        }
        header := h.value;
      }
      assert header == w[b..b + nSize] && incoming == w[b + nSize..];
      RefreshSlice(p, w, b, nSize);
      p := ApplyHeader(p, header);
      if nSize >= 3 && p.timestamp == 0xffffff {
        var ext := ReadN(4);
        if ext.None? {
          return None;
        }
        assert ext.value == w[b + nSize..b + nSize + 4];
        ExtendedSlice(w, b + nSize);
        p := p.(timestamp := FromBe32(ext.value, 0));
      }
      if p.bodySize > 0 && p.body.None? {
        p := p.(body := Some(seq(p.bodySize, _ => 0)), bytesRead := 0, headerType := fmt);
      }
      return Some(p);
    }

    /** Copies the fields of a message header into the packet. */
    method ApplyHeader(packet: Packet, header: seq<Byte>) returns (p: Packet)
      ensures p == Refresh(packet, header, 0, |header|)
    {
      p := packet;
      var nSize := |header|;
      if nSize >= 3 {
        p := p.(timestamp := FromBe24(header, 0));
        if nSize >= 6 {
          p := p.(bodySize := FromBe24(header, 3), bytesRead := 0, body := None);
          if nSize > 6 {
            p := p.(packetType := header[6]);
            if nSize == 11 {
              p := p.(info := FromLe32(header, 7));
            }
          }
        }
      }
    }

    /** RTMP_ReadPacket: FALSE exactly when the stream ends inside the chunk. */
    method ReadPacket(packet: Packet) returns (ok: bool, p: Packet)
      requires packet.Valid() && Reading().Valid()
      modifies this`incoming, this`channelsIn, this`channelTimestamp
      ensures var res := ReadChunk(old(Reading()), packet, old(incoming));
              && ok == res.Some?
              && (ok ==> Reading() == res.value.0 && p == res.value.1 && incoming == old(incoming)[res.value.2..])
              && (!ok ==> Reading() == old(Reading()))
    {
      hide ReadHeader, Remember;
      ghost var r, w := Reading(), incoming;
      ReadHeaderValid(r, packet, w);
      p := packet;
      var header := ReadChunkHeader(packet);
      if header.None? {
        return false, p;
      }
      p := header.value;
      var nChunk := Min(inChunkSize, p.bodySize - p.bytesRead);
      var data := ReadN(nChunk);
      if data.None? {
        return false, p;
      }
      ghost var h := ReadHeader(r, packet, w).value.1;
      assert data.value == w[h..h + nChunk] && incoming == w[h + nChunk..];
      var read := p.bytesRead + nChunk;
      if p.body.Some? {
        p := p.(body := Some(p.body.value[..p.bytesRead] + data.value + p.body.value[read..]));
      }
      p := p.(bytesRead := read);
      p := Keep(p);
      ok := true;
    }

    /** Keeps the packet as reference for its channel; a complete one gets its absolute timestamp. */
    method Keep(packet: Packet) returns (p: Packet)
      modifies this`channelsIn, this`channelTimestamp
      ensures (Reading(), p) == Remember(old(Reading()), packet)
    {
      p := packet;
      channelsIn := channelsIn[p.channel := p];
      if p.bytesRead == p.bodySize {
        if !p.hasAbsTimestamp {
          p := p.(timestamp := (p.timestamp + Reading().TimestampOf(p.channel)) % TWO32);
        }
        channelTimestamp := channelTimestamp[p.channel := p.timestamp];
        var reset := channelsIn[p.channel].(body := None, bytesRead := 0, hasAbsTimestamp := false);
        channelsIn := channelsIn[p.channel := reset];
        assert channelsIn == old(channelsIn)[p.channel := reset];
      } else {
        p := p.(body := None);
      }
    }
  }
}
