/** The reader undoes the sender. Each channel of the two machines is related by a simulation invariant,
    so the result holds for every interleaving of the channels' chunks. */
module RtmpRoundTrip {
  import opened Bytes
  import opened RtmpChunkStream

  /** What a completed packet tells the application. */
  datatype Arrival = Arrival(channel: nat, packetType: Byte, timestamp: U32, info: U32, body: seq<Byte>)

  function ArrivalOf(p: Packet): Arrival {
    Arrival(p.channel, p.packetType, p.timestamp, p.info, if p.body.None? then [] else p.body.value)
  }

  /** The state of one channel between two messages: what the sender remembers, the last transmitted
      timestamp field, the reader's accumulated timestamp, and the stream id once a full header carried it. */
  datatype Link = Link(sent: Option<Sent>, field: U32, base: U32, info: Option<U32>)

  const FRESH := Link(None, 0, 0, None)

  /** Messages the chunk format can carry on a channel in this state. Callers of the library only ask for
      full or medium headers; the two short forms need a predecessor of the same length and type. */
  predicate Sendable(l: Link, m: Message) {
    && 2 <= m.channel < RTMP_CHANNELS
    && |m.body| < 0x100_0000
    && (m.headerType >= SMALL ==>
          l.sent.Some? && l.sent.value.bodySize == |m.body| && l.sent.value.packetType == m.packetType)
  }

  function After(l: Link, m: Message): Link {
    var fmt, t := Compressed(l.sent, m), TimestampField(l.sent, m);
    var field := if fmt == MINIMUM then l.field else t;
    Link(Some(SentOf(m)), field,
         if fmt == LARGE then field else (field + l.base) % TWO32,
         if fmt == LARGE then Some(m.info) else l.info)
  }

  /** Position in a channel's traffic: the messages not yet completed, and how many body bytes of the
      first of them have been read (0 between messages). */
  datatype Position = Position(link: Link, done: nat, todo: seq<Message>) {
    predicate Shaped() {
      && (todo == [] ==> done == 0)
      && (done > 0 ==> done < |todo[0].body|)
    }

    predicate Valid(channel: nat) {
      && Shaped()
      && (link.sent.None? ==> link == FRESH)
      && SendableAll(link, channel, todo)
    }
  }

  predicate SendableAll(l: Link, channel: nat, ms: seq<Message>)
    decreases |ms|
  {
    ms == [] || (ms[0].channel == channel && Sendable(l, ms[0]) && SendableAll(After(l, ms[0]), channel, ms[1..]))
  }

  /** The chunks a sender emits for a channel from a position on. */
  function Traffic(pos: Position, channel: nat, chunkSize: ChunkSize): seq<seq<Byte>>
    requires pos.Shaped()
    decreases |pos.todo|
  {
    if pos.todo == [] then []
    else CurrentChunks(pos, channel, chunkSize) + Traffic(NextMessage(pos), channel, chunkSize)
  }

  function CurrentChunks(pos: Position, channel: nat, chunkSize: ChunkSize): seq<seq<Byte>>
    requires pos.Shaped() && pos.todo != []
  {
    if pos.done == 0 then Chunks(pos.link.sent, pos.todo[0], chunkSize)
    else ContinuationChunks(channel, pos.todo[0].body[pos.done..], chunkSize)
  }

  function NextMessage(pos: Position): (p: Position)
    requires pos.todo != []
    ensures p.Shaped()
  {
    Position(After(pos.link, pos.todo[0]), 0, pos.todo[1..])
  }

  /** Payload bytes of the next chunk. */
  function Payload(pos: Position, chunkSize: ChunkSize): nat
    requires pos.Shaped() && pos.todo != []
  {
    Min(chunkSize, |pos.todo[0].body| - pos.done)
  }

  function NextChunk(pos: Position, channel: nat, chunkSize: ChunkSize): seq<Byte>
    requires pos.Shaped() && pos.todo != []
  {
    var m := pos.todo[0];
    (if pos.done == 0 then FirstHeader(pos.link.sent, m) else BasicHeader(MINIMUM, channel))
    + m.body[pos.done..pos.done + Payload(pos, chunkSize)]
  }

  /** The next chunk is the last of its message. */
  predicate Completes(pos: Position, chunkSize: ChunkSize)
    requires pos.Shaped() && pos.todo != []
  {
    pos.done + Payload(pos, chunkSize) == |pos.todo[0].body|
  }

  function Advance(pos: Position, chunkSize: ChunkSize): (p: Position)
    requires pos.Shaped() && pos.todo != []
    ensures p.Shaped()
  {
    if Completes(pos, chunkSize) then NextMessage(pos) else pos.(done := pos.done + Payload(pos, chunkSize))
  }

  /** The rest of the current message's chunks, seen from a position inside or before it. */
  lemma {:induction false} MessageUnfolds(pos: Position, channel: nat, chunkSize: ChunkSize)
    requires pos.Shaped() && pos.todo != [] && pos.todo[0].channel == channel
    ensures CurrentChunks(pos, channel, chunkSize)
            == [NextChunk(pos, channel, chunkSize)]
               + ContinuationChunks(channel, pos.todo[0].body[pos.done + Payload(pos, chunkSize)..], chunkSize)
  {
    hide FirstHeader, BasicHeader;
    var m, n := pos.todo[0], Payload(pos, chunkSize);
    var tail := m.body[pos.done..];
    assert tail[..n] == m.body[pos.done..pos.done + n];
    assert tail[n..] == m.body[pos.done + n..];
  }

  lemma {:induction false} ChunksAdvance(pos: Position, channel: nat, chunkSize: ChunkSize)
    requires pos.Shaped() && pos.todo != [] && pos.todo[0].channel == channel
    ensures CurrentChunks(pos, channel, chunkSize) != []
    ensures CurrentChunks(pos, channel, chunkSize)[1..]
            == if Completes(pos, chunkSize) then [] else CurrentChunks(Advance(pos, chunkSize), channel, chunkSize)
  {
    MessageUnfolds(pos, channel, chunkSize);
    var cont := ContinuationChunks(channel, pos.todo[0].body[pos.done + Payload(pos, chunkSize)..], chunkSize);
    assert CurrentChunks(pos, channel, chunkSize)[1..] == cont;
  }

  lemma {:induction false} TrafficUnfolds(pos: Position, channel: nat, chunkSize: ChunkSize)
    requires pos.Shaped() && pos.todo != [] && pos.todo[0].channel == channel
    ensures Traffic(pos, channel, chunkSize)
            == [NextChunk(pos, channel, chunkSize)] + Traffic(Advance(pos, chunkSize), channel, chunkSize)
  {
    var m, next := pos.todo[0], pos.done + Payload(pos, chunkSize);
    var cont := ContinuationChunks(channel, m.body[next..], chunkSize);
    var later := Traffic(NextMessage(pos), channel, chunkSize);
    MessageUnfolds(pos, channel, chunkSize);
    ConcatAssoc([NextChunk(pos, channel, chunkSize)], cont, later);
    if next == |m.body| {
      assert cont + later == later;
    }
  }

  // ---------- the simulation invariant ----------

  ghost predicate InfoMatches(known: Option<U32>, p: Packet) {
    known.Some? ==> p.info == known.value
  }

  /** The reader's tables for a channel agree with the sender's position on it. */
  ghost predicate Sim(r: Reader, channel: nat, pos: Position)
    requires pos.Valid(channel)
  {
    var l := pos.link;
    && r.TimestampOf(channel) == l.base
    && (l.sent.None? && pos.done == 0 ==> channel !in r.channelsIn)
    && (l.sent.Some? && pos.done == 0 ==>
          && channel in r.channelsIn
          && var p := r.channelsIn[channel];
          && p.timestamp == l.field && !p.hasAbsTimestamp && InfoMatches(l.info, p)
          && p.bodySize == l.sent.value.bodySize && p.packetType == l.sent.value.packetType
          && p.bytesRead == 0 && p.body.None?)
    && (pos.done > 0 ==> channel in r.channelsIn && Partial(r.channelsIn[channel], pos))
  }

  /** A packet of which pos.done body bytes have been read. */
  ghost predicate Partial(p: Packet, pos: Position)
    requires pos.Shaped() && pos.todo != []
  {
    var m, after := pos.todo[0], After(pos.link, pos.todo[0]);
    && p.channel == m.channel && p.packetType == m.packetType && p.bodySize == |m.body|
    && p.timestamp == after.field && InfoMatches(after.info, p)
    && after.base == (if p.hasAbsTimestamp then p.timestamp else (p.timestamp + pos.link.base) % TWO32)
    && p.bytesRead == pos.done
    && (p.bodySize > 0 ==> p.body.Some?) && (p.bodySize == 0 ==> p.body.None?)
    && (p.body.Some? ==> |p.body.value| == |m.body| && p.body.value[..pos.done] == m.body[..pos.done])
  }

  // ---------- one header ----------

  lemma BasicDecodes(fmt: HeaderType, channel: nat, w: seq<Byte>)
    requires 2 <= channel < RTMP_CHANNELS
    requires BasicHeader(fmt, channel) <= w
    ensures DecodeBasic(w) == Some((channel, 1 + ChannelBytes(channel)))
    ensures w[0] / 64 == fmt
  {
    var h := BasicHeader(fmt, channel);
    assert w[0] == h[0];
    if channel > 63 {
      assert w[1] == h[1];
    }
    if channel > 319 {
      assert w[2] == h[2];
    }
  }

  /** A continuation header resumes the partial packet unchanged. */
  lemma ContinuationHeader(r: Reader, p: Packet, channel: nat, pos: Position, rest: seq<Byte>)
    requires r.Valid() && p.Valid() && pos.Valid(channel) && pos.done > 0 && Sim(r, channel, pos)
    ensures var h := BasicHeader(MINIMUM, channel);
            ReadHeader(r, p, h + rest) == Some((r.channelsIn[channel], |h|)) && Partial(r.channelsIn[channel], pos)
  {
    BasicDecodes(MINIMUM, channel, BasicHeader(MINIMUM, channel) + rest);
  }

  /** A packet overwritten with the fields that a header of this type carries. */
  function Stamped(q: Packet, fmt: HeaderType, t: U32, m: Message): Packet
    requires |m.body| < 0x100_0000
  {
    var q := if fmt < MINIMUM then q.(timestamp := t) else q;
    var q := if fmt < SMALL
             then q.(bodySize := |m.body|, bytesRead := 0, body := None, packetType := m.packetType)
             else q;
    if fmt == LARGE then q.(info := m.info) else q
  }

  predicate FieldsAt(fmt: HeaderType, t24: U24, m: Message, w: seq<Byte>, b: nat)
    requires b + PacketSize(fmt) - 1 <= |w|
  {
    && (fmt < MINIMUM ==> FromBe24(w, b) == t24)
    && (fmt < SMALL ==> FromBe24(w, b + 3) == |m.body| && w[b + 6] == m.packetType)
    && (fmt < MEDIUM ==> FromLe32(w, b + 7) == m.info)
  }

  lemma HeaderFields(fmt: HeaderType, t: U32, m: Message, w: seq<Byte>, b: nat)
    requires b + PacketSize(fmt) - 1 <= |w| && w[b..b + PacketSize(fmt) - 1] == MessageHeader(fmt, t, m)
    requires |m.body| < 0x100_0000
    ensures FieldsAt(fmt, if t > 0xffffff then 0xffffff else t, m, w, b)
  {
    hide Be24, FromBe24, Le32, FromLe32;
    Pieces(w, b, TimePart(fmt, t), SizePart(fmt, |m.body|, m.packetType), IdPart(fmt, m.info));
    if fmt < MINIMUM {
      WordAt24(w, b, if t > 0xffffff then 0xffffff else t);
    }
    if fmt < SMALL {
      SizeAndType(w, b + 3, |m.body|, m.packetType);
    }
    if fmt < MEDIUM {
      WordAtLe32(w, b + 7, m.info);
    }
  }

  lemma RefreshStamps(q: Packet, fmt: HeaderType, t24: U24, m: Message, w: seq<Byte>, b: nat)
    requires b + PacketSize(fmt) - 1 <= |w| && |m.body| < 0x100_0000
    requires FieldsAt(fmt, t24, m, w, b)
    ensures Refresh(q, w, b, PacketSize(fmt) - 1) == Stamped(q, fmt, t24, m)
  {
  }

  lemma SizeAndType(w: seq<Byte>, i: nat, size: U24, packetType: Byte)
    requires i + 4 <= |w| && w[i..i + 4] == Be24(size) + [packetType]
    ensures FromBe24(w, i) == size && w[i + 3] == packetType
  {
    SubSlice(w, i, Be24(size) + [packetType], 0, 3);
    assert w[i + 3] == w[i..i + 4][3];
    WordAt24(w, i, size);
  }

  lemma HeaderDecodes(r: Reader, p: Packet, fmt: HeaderType, t: U32, m: Message, rest: seq<Byte>)
    requires 2 <= m.channel < RTMP_CHANNELS && |m.body| < 0x100_0000
    ensures var h := BasicHeader(fmt, m.channel) + MessageHeader(fmt, t, m) + ExtendedTimestamp(fmt, t);
            ReadHeader(r, p, h + rest)
            == Some((Allocated(Stamped(Resume(r, p, fmt, m.channel), fmt, t, m), fmt), |h|))
  {
    hide Be24, Be32, Le32, FromBe24, FromBe32, FromLe32, BasicHeader, MessageHeader, DecodeBasic, Refresh, Resume;
    var basic, msg, ext := BasicHeader(fmt, m.channel), MessageHeader(fmt, t, m), ExtendedTimestamp(fmt, t);
    var w := basic + msg + ext + rest;
    Sections(basic, msg, ext, rest);
    BasicDecodes(fmt, m.channel, w);
    var b, n := |basic|, |msg|;
    HeaderFields(fmt, t, m, w, b);
    RefreshStamps(Resume(r, p, fmt, m.channel), fmt, if t > 0xffffff then 0xffffff else t, m, w, b);
    if fmt < MINIMUM && t >= 0xffffff {
      WordAt32(w, b + n, t);
    }
  }

  /** The first header of a message starts a packet with the message's attributes. */
  lemma OpeningHeader(r: Reader, p: Packet, channel: nat, pos: Position, rest: seq<Byte>)
    requires r.Valid() && p.Valid() && pos.Valid(channel) && pos.todo != [] && pos.done == 0
    requires Sim(r, channel, pos)
    ensures var h := FirstHeader(pos.link.sent, pos.todo[0]);
            var res := ReadHeader(r, p, h + rest);
            res.Some? && res.value.1 == |h| && Partial(res.value.0, pos)
  {
    var l, m := pos.link, pos.todo[0];
    var fmt, t := Compressed(l.sent, m), TimestampField(l.sent, m);
    HeaderDecodes(r, p, fmt, t, m, rest);
    OpeningFields(r, p, channel, pos, fmt, t);
  }

  lemma OpeningFields(r: Reader, p: Packet, channel: nat, pos: Position, fmt: HeaderType, t: U32)
    requires r.Valid() && p.Valid() && pos.Valid(channel) && pos.todo != [] && pos.done == 0
    requires Sim(r, channel, pos)
    requires fmt == Compressed(pos.link.sent, pos.todo[0]) && t == TimestampField(pos.link.sent, pos.todo[0])
    ensures Partial(Allocated(Stamped(Resume(r, p, fmt, channel), fmt, t, pos.todo[0]), fmt), pos)
  {
    var m := pos.todo[0];
    assert m.body[..0] == [];
  }

  // ---------- one chunk ----------

  /** What must reach the application when the first pending message completes. The stream id is only
      determined once a full header has carried it on the channel. */
  datatype Expected = Expected(channel: nat, packetType: Byte, timestamp: U32, info: Option<U32>, body: seq<Byte>)

  function Expect(l: Link, m: Message): Expected {
    Expected(m.channel, m.packetType, After(l, m).base, After(l, m).info, m.body)
  }

  predicate Matches(a: Arrival, e: Expected) {
    a == Arrival(e.channel, e.packetType, e.timestamp, if e.info.Some? then e.info.value else a.info, e.body)
  }

  predicate SameElsewhere(r: Reader, r': Reader, channel: nat) {
    && r'.chunkSize == r.chunkSize
    && r'.channelsIn - {channel} == r.channelsIn - {channel}
    && r'.channelTimestamp - {channel} == r.channelTimestamp - {channel}
  }

  /** Copying a chunk's payload into a partial packet and remembering it is one step of the position. */
  lemma PayloadStep(r: Reader, q: Packet, channel: nat, pos: Position)
    requires r.Valid() && r.chunkSize > 0 && pos.Valid(channel) && pos.todo != [] && Sim(r, channel, pos)
    requires Partial(q, pos)
    ensures var m, n := pos.todo[0], Payload(pos, r.chunkSize);
            var (r', p') := Remember(r, Filled(q, m.body[pos.done..pos.done + n]));
            && Sim(r', channel, Advance(pos, r.chunkSize))
            && SameElsewhere(r, r', channel)
            && (p'.Ready() <==> Completes(pos, r.chunkSize))
            && (Completes(pos, r.chunkSize) ==> Matches(ArrivalOf(p'), Expect(pos.link, m)))
  {
    hide Compressed, TimestampField, Partial, Sim;
    PayloadKeeps(r, q, channel, pos);
    PayloadDelivers(r, q, channel, pos);
  }

  lemma PayloadKeeps(r: Reader, q: Packet, channel: nat, pos: Position)
    requires r.Valid() && r.chunkSize > 0 && pos.Valid(channel) && pos.todo != [] && Sim(r, channel, pos)
    requires Partial(q, pos)
    ensures var m, n := pos.todo[0], Payload(pos, r.chunkSize);
            var r' := Remember(r, Filled(q, m.body[pos.done..pos.done + n])).0;
            Sim(r', channel, Advance(pos, r.chunkSize)) && SameElsewhere(r, r', channel)
  {
    hide Compressed, TimestampField;
    FilledBody(q, pos, Payload(pos, r.chunkSize));
  }

  lemma PayloadDelivers(r: Reader, q: Packet, channel: nat, pos: Position)
    requires r.Valid() && r.chunkSize > 0 && pos.Valid(channel) && pos.todo != [] && Sim(r, channel, pos)
    requires Partial(q, pos)
    ensures var m, n := pos.todo[0], Payload(pos, r.chunkSize);
            var p' := Remember(r, Filled(q, m.body[pos.done..pos.done + n])).1;
            && (p'.Ready() <==> Completes(pos, r.chunkSize))
            && (Completes(pos, r.chunkSize) ==> Matches(ArrivalOf(p'), Expect(pos.link, m)))
  {
    hide Compressed, TimestampField;
    FilledBody(q, pos, Payload(pos, r.chunkSize));
  }

  lemma FilledBody(q: Packet, pos: Position, n: nat)
    requires pos.Shaped() && pos.todo != [] && Partial(q, pos) && pos.done + n <= |pos.todo[0].body|
    ensures var m := pos.todo[0];
            var f := Filled(q, m.body[pos.done..pos.done + n]);
            && (q.body.Some? ==> |f.body.value| == |m.body| && f.body.value[..pos.done + n] == m.body[..pos.done + n])
            && (pos.done + n == |m.body| ==> ArrivalOf(f).body == m.body)
  {
    var m := pos.todo[0];
    var data := m.body[pos.done..pos.done + n];
    var f := Filled(q, data);
    if q.body.Some? {
      assert f.body.value[..pos.done + n] == q.body.value[..pos.done] + data == m.body[..pos.done + n];
      if pos.done + n == |m.body| {
        assert f.body.value == f.body.value[..pos.done + n] && m.body == m.body[..pos.done + n];
      }
    }
  }

  lemma {:induction false} ReadStep(r: Reader, p: Packet, channel: nat, pos: Position, rest: seq<Byte>)
    requires r.Valid() && p.Valid() && r.chunkSize > 0
    requires pos.Valid(channel) && pos.todo != [] && Sim(r, channel, pos)
    ensures var c := NextChunk(pos, channel, r.chunkSize);
            var res := ReadChunk(r, p, c + rest);
            && res.Some?
            && var (r', p', used) := res.value;
            && used == |c|
            && Sim(r', channel, Advance(pos, r.chunkSize))
            && SameElsewhere(r, r', channel)
            && (p'.Ready() <==> Completes(pos, r.chunkSize))
            && (Completes(pos, r.chunkSize) ==> Matches(ArrivalOf(p'), Expect(pos.link, pos.todo[0])))
  {
    hide ReadHeader, FirstHeader, BasicHeader, Remember, Filled, After, ArrivalOf, Matches, Sim;
    var m, n := pos.todo[0], Payload(pos, r.chunkSize);
    var h := if pos.done == 0 then FirstHeader(pos.link.sent, m) else BasicHeader(MINIMUM, channel);
    var data := m.body[pos.done..pos.done + n];
    assert NextChunk(pos, channel, r.chunkSize) + rest == h + (data + rest);
    if pos.done == 0 {
      OpeningHeader(r, p, channel, pos, data + rest);
    } else {
      ContinuationHeader(r, p, channel, pos, data + rest);
    }
    Middle(h, data, rest);
    var q := ReadHeader(r, p, h + (data + rest)).value.0;
    assert Partial(q, pos);
    PayloadStep(r, q, channel, pos);
  }

  // ---------- whole runs ----------

  /** Reads |ps| chunks, the i-th into the caller's packet ps[i]; collects the packets that became ready. */
  function ReadRun(r: Reader, ps: seq<Packet>, w: seq<Byte>): Option<(Reader, seq<Packet>, seq<Byte>)>
    requires r.Valid() && forall p :: p in ps ==> p.Valid()
    decreases |ps|
  {
    if ps == [] then Some((r, [], w))
    else
      var step := ReadChunk(r, ps[0], w);
      if step.None? then None
      else
        var (r', p', used) := step.value;
        var tail := ReadRun(r', ps[1..], w[used..]);
        if tail.None? then None
        else Some((tail.value.0, (if p'.Ready() then [p'] else []) + tail.value.1, tail.value.2))
  }

  /** A chunk on the wire, tagged with the channel it belongs to. */
  datatype Tagged = Tagged(channel: nat, bytes: seq<Byte>)

  function OnChannel(ts: seq<Tagged>, channel: nat): seq<seq<Byte>> {
    if ts == [] then []
    else (if ts[0].channel == channel then [ts[0].bytes] else []) + OnChannel(ts[1..], channel)
  }

  function WireOf(ts: seq<Tagged>): seq<Byte> {
    if ts == [] then [] else ts[0].bytes + WireOf(ts[1..])
  }

  ghost predicate ValidLine(line: map<nat, Position>) {
    forall c :: c in line ==> line[c].Valid(c)
  }

  /** ts is some interleaving of all the channels' chunk streams. */
  ghost predicate Interleaves(ts: seq<Tagged>, line: map<nat, Position>, chunkSize: ChunkSize)
    requires ValidLine(line)
  {
    && (forall t :: t in ts ==> t.channel in line)
    && (forall c :: c in line ==> OnChannel(ts, c) == Traffic(line[c], c, chunkSize))
  }

  ghost predicate SimAll(r: Reader, line: map<nat, Position>)
    requires ValidLine(line)
  {
    forall c :: c in line ==> Sim(r, c, line[c])
  }

  /** The packets that must arrive while ts is read, in order. */
  function Script(ts: seq<Tagged>, line: map<nat, Position>, chunkSize: ChunkSize): seq<Expected>
    requires ValidLine(line) && Interleaves(ts, line, chunkSize)
  {
    if ts == [] then []
    else
      var c := ts[0].channel;
      HeadOfTraffic(ts, line, chunkSize);
      (if Completes(line[c], chunkSize) then [Expect(line[c].link, line[c].todo[0])] else [])
      + Script(ts[1..], line[c := Advance(line[c], chunkSize)], chunkSize)
  }

  lemma {:induction false} HeadOfTraffic(ts: seq<Tagged>, line: map<nat, Position>, chunkSize: ChunkSize)
    requires ValidLine(line) && Interleaves(ts, line, chunkSize) && ts != []
    ensures var c := ts[0].channel;
            && c in line && line[c].todo != []
            && ts[0].bytes == NextChunk(line[c], c, chunkSize)
            && ValidLine(line[c := Advance(line[c], chunkSize)])
            && Interleaves(ts[1..], line[c := Advance(line[c], chunkSize)], chunkSize)
  {
    var c := ts[0].channel;
    assert ts[0] in ts;
    ActiveChannel(ts, line[c], c, chunkSize);
    var line' := line[c := Advance(line[c], chunkSize)];
    forall d | d in line' ensures OnChannel(ts[1..], d) == Traffic(line'[d], d, chunkSize) {
      if d != c {
        assert OnChannel(ts, d) == OnChannel(ts[1..], d);
      }
    }
  }

  lemma {:induction false} ActiveChannel(ts: seq<Tagged>, pos: Position, c: nat, chunkSize: ChunkSize)
    requires ts != [] && ts[0].channel == c && pos.Valid(c) && OnChannel(ts, c) == Traffic(pos, c, chunkSize)
    ensures pos.todo != [] && pos.todo[0].channel == c
    ensures ts[0].bytes == NextChunk(pos, c, chunkSize)
    ensures Advance(pos, chunkSize).Valid(c)
    ensures OnChannel(ts[1..], c) == Traffic(Advance(pos, chunkSize), c, chunkSize)
  {
    assert OnChannel(ts, c) == [ts[0].bytes] + OnChannel(ts[1..], c);
    assert pos.todo != [];
    TrafficUnfolds(pos, c, chunkSize);
    assert OnChannel(ts[1..], c) == OnChannel(ts, c)[1..];
  }

  predicate MatchesAll(ds: seq<Packet>, es: seq<Expected>) {
    |ds| == |es| && forall i :: 0 <= i < |ds| ==> Matches(ArrivalOf(ds[i]), es[i])
  }

  /** Whatever the interleaving and whatever packets the caller passes in, reading the wire delivers the
      scripted packets and consumes exactly the bytes that were sent. */
  lemma {:induction false} ReaderFollowsScript(r: Reader, ps: seq<Packet>, ts: seq<Tagged>,
                                               line: map<nat, Position>, rest: seq<Byte>)
    requires r.Valid() && r.chunkSize > 0 && (forall p :: p in ps ==> p.Valid())
    requires ValidLine(line) && SimAll(r, line) && Interleaves(ts, line, r.chunkSize)
    requires |ps| == |ts|
    ensures var res := ReadRun(r, ps, WireOf(ts) + rest);
            res.Some? && res.value.2 == rest && MatchesAll(res.value.1, Script(ts, line, r.chunkSize))
    decreases |ts|
  {
    if ts == [] {
      assert WireOf(ts) + rest == rest;
    } else {
      HeadOfTraffic(ts, line, r.chunkSize);
      var c := ts[0].channel;
      var tail, line' := WireOf(ts[1..]) + rest, line[c := Advance(line[c], r.chunkSize)];
      ConcatAssoc(ts[0].bytes, WireOf(ts[1..]), rest);
      var r' := OneChunk(r, ps[0], c, line, tail);
      ReaderFollowsScript(r', ps[1..], ts[1..], line', rest);
      RunUnfolds(r, ps, ts[0].bytes + tail);
      ScriptUnfolds(ts, line, r.chunkSize);
      var p' := ReadChunk(r, ps[0], ts[0].bytes + tail).value.1;
      MatchesCons(p', Expect(line[c].link, line[c].todo[0]), ReadRun(r', ps[1..], tail).value.1,
                  Script(ts[1..], line', r.chunkSize));
    }
  }

  lemma MatchesCons(d: Packet, e: Expected, ds: seq<Packet>, es: seq<Expected>)
    requires MatchesAll(ds, es)
    ensures MatchesAll([] + ds, [] + es)
    ensures Matches(ArrivalOf(d), e) ==> MatchesAll([d] + ds, [e] + es)
  {
    assert [] + ds == ds && [] + es == es;
    assert forall i :: 0 < i < |ds| + 1 ==> ([d] + ds)[i] == ds[i - 1] && ([e] + es)[i] == es[i - 1];
  }

  lemma RunUnfolds(r: Reader, ps: seq<Packet>, w: seq<Byte>)
    requires r.Valid() && (forall p :: p in ps ==> p.Valid()) && ps != []
    requires ReadChunk(r, ps[0], w).Some?
    requires var (r', p', used) := ReadChunk(r, ps[0], w).value; ReadRun(r', ps[1..], w[used..]).Some?
    ensures var (r', p', used) := ReadChunk(r, ps[0], w).value;
            var tail := ReadRun(r', ps[1..], w[used..]).value;
            ReadRun(r, ps, w) == Some((tail.0, (if p'.Ready() then [p'] else []) + tail.1, tail.2))
  {
  }

  lemma ScriptUnfolds(ts: seq<Tagged>, line: map<nat, Position>, chunkSize: ChunkSize)
    requires ValidLine(line) && Interleaves(ts, line, chunkSize) && ts != []
    ensures ts[0].channel in line && line[ts[0].channel].todo != []
    ensures var c := ts[0].channel;
            var line' := line[c := Advance(line[c], chunkSize)];
            && ValidLine(line') && Interleaves(ts[1..], line', chunkSize)
            && Script(ts, line, chunkSize)
               == (if Completes(line[c], chunkSize) then [Expect(line[c].link, line[c].todo[0])] else [])
                  + Script(ts[1..], line', chunkSize)
  {
    HeadOfTraffic(ts, line, chunkSize);
  }

  /** ReadStep for one channel of many. */
  lemma {:induction false} OneChunk(r: Reader, p: Packet, c: nat, line: map<nat, Position>, tail: seq<Byte>)
    returns (r': Reader)
    requires r.Valid() && r.chunkSize > 0 && p.Valid()
    requires ValidLine(line) && SimAll(r, line) && c in line && line[c].todo != []
    ensures r'.Valid() && r'.chunkSize == r.chunkSize
    ensures var line' := line[c := Advance(line[c], r.chunkSize)];
            ValidLine(line') && SimAll(r', line')
    ensures var w := NextChunk(line[c], c, r.chunkSize) + tail;
            var res := ReadChunk(r, p, w);
            && res.Some? && res.value.0 == r' && w[res.value.2..] == tail
            && (res.value.1.Ready() <==> Completes(line[c], r.chunkSize))
            && (res.value.1.Ready() ==> Matches(ArrivalOf(res.value.1), Expect(line[c].link, line[c].todo[0])))
  {
    ReadStep(r, p, c, line[c], tail);
    r' := ReadChunk(r, p, NextChunk(line[c], c, r.chunkSize) + tail).value.0;
    var line' := line[c := Advance(line[c], r.chunkSize)];
    forall d | d in line' ensures Sim(r', d, line'[d]) {
      if d != c {
        Elsewhere(r, r', c, d);
      }
    }
  }

  lemma Elsewhere(r: Reader, r': Reader, c: nat, d: nat)
    requires SameElsewhere(r, r', c) && d != c
    ensures r'.TimestampOf(d) == r.TimestampOf(d)
    ensures d in r'.channelsIn <==> d in r.channelsIn
    ensures d in r.channelsIn ==> r'.channelsIn[d] == r.channelsIn[d]
  {
    assert d in r.channelsIn <==> d in r.channelsIn - {c};
    assert d in r'.channelsIn <==> d in r'.channelsIn - {c};
    assert d in r.channelsIn ==> (r.channelsIn - {c})[d] == r.channelsIn[d];
    assert d in r.channelTimestamp <==> d in r.channelTimestamp - {c};
    assert d in r'.channelTimestamp <==> d in r'.channelTimestamp - {c};
    assert d in r.channelTimestamp ==> (r.channelTimestamp - {c})[d] == r.channelTimestamp[d];
  }

  // ---------- what the script says, channel by channel ----------

  function ExpectAll(l: Link, ms: seq<Message>): (es: seq<Expected>)
    ensures |es| == |ms|
    decreases |ms|
  {
    if ms == [] then [] else [Expect(l, ms[0])] + ExpectAll(After(l, ms[0]), ms[1..])
  }

  function ExpectedOn(es: seq<Expected>, channel: nat): seq<Expected> {
    if es == [] then []
    else (if es[0].channel == channel then [es[0]] else []) + ExpectedOn(es[1..], channel)
  }

  function PacketsOn(ds: seq<Packet>, channel: nat): seq<Packet> {
    if ds == [] then []
    else (if ds[0].channel == channel then [ds[0]] else []) + PacketsOn(ds[1..], channel)
  }

  /** Every interleaving completes exactly the messages of each channel, in that channel's order. */
  lemma {:induction false} ScriptPerChannel(ts: seq<Tagged>, line: map<nat, Position>, chunkSize: ChunkSize, c: nat)
    requires ValidLine(line) && Interleaves(ts, line, chunkSize) && c in line
    ensures ExpectedOn(Script(ts, line, chunkSize), c) == ExpectAll(line[c].link, line[c].todo)
    decreases |ts|
  {
    if ts == [] {
      if line[c].todo != [] {
        TrafficUnfolds(line[c], c, chunkSize);
      }
    } else {
      ScriptUnfolds(ts, line, chunkSize);
      var d := ts[0].channel;
      var line' := line[d := Advance(line[d], chunkSize)];
      ScriptPerChannel(ts[1..], line', chunkSize, c);
      var later := Script(ts[1..], line', chunkSize);
      if Completes(line[d], chunkSize) {
        var e := Expect(line[d].link, line[d].todo[0]);
        assert ([e] + later)[1..] == later;
        assert e.channel == d;
      } else {
        assert [] + later == later;
      }
    }
  }

  lemma {:induction false} MatchesPerChannel(ds: seq<Packet>, es: seq<Expected>, c: nat)
    requires MatchesAll(ds, es)
    ensures MatchesAll(PacketsOn(ds, c), ExpectedOn(es, c))
    decreases |ds|
  {
    if ds != [] {
      assert Matches(ArrivalOf(ds[0]), es[0]);
      MatchesPerChannel(ds[1..], es[1..], c);
    }
  }

  /** The traffic of a fresh connection: the messages each channel is given. */
  function FreshLine(messages: map<nat, seq<Message>>): map<nat, Position> {
    map c | c in messages :: Position(FRESH, 0, messages[c])
  }

  ghost predicate AllSendable(messages: map<nat, seq<Message>>) {
    forall c :: c in messages ==> SendableAll(FRESH, c, messages[c])
  }

  /** Demultiplexing: from a fresh connection, any interleaving of the channels' chunks gives back on every
      channel exactly the messages sent on it, in order. */
  lemma ReaderDemultiplexes(r: Reader, ps: seq<Packet>, ts: seq<Tagged>, messages: map<nat, seq<Message>>)
    requires r.channelsIn == map[] && r.channelTimestamp == map[] && r.chunkSize > 0
    requires (forall p :: p in ps ==> p.Valid()) && |ps| == |ts|
    requires AllSendable(messages) && Interleaves(ts, FreshLine(messages), r.chunkSize)
    ensures var res := ReadRun(r, ps, WireOf(ts));
            && res.Some? && res.value.2 == []
            && forall c :: c in messages ==> MatchesAll(PacketsOn(res.value.1, c), ExpectAll(FRESH, messages[c]))
  {
    hide Interleaves, Script, Traffic, OnChannel, ReadRun, ReadChunk, ExpectAll, PacketsOn, ExpectedOn, MatchesAll;
    var line := FreshLine(messages);
    ReaderFollowsScript(r, ps, ts, line, []);
    assert WireOf(ts) + [] == WireOf(ts);
    forall c | c in messages
      ensures MatchesAll(PacketsOn(ReadRun(r, ps, WireOf(ts)).value.1, c), ExpectAll(FRESH, messages[c]))
    {
      MatchesPerChannel(ReadRun(r, ps, WireOf(ts)).value.1, Script(ts, line, r.chunkSize), c);
      ScriptPerChannel(ts, line, r.chunkSize, c);
    }
  }

  // ---------- timestamps ----------

  /** No first chunk was compressed to type 3 while the channel's last transmitted timestamp field differs
      from the difference it stands for. (Messages given as LARGE or MEDIUM only reach type 3 with
      difference 0, so for them: no such chunk follows a nonzero field.) */
  predicate Coherent(l: Link, ms: seq<Message>)
    decreases |ms|
  {
    ms == [] ||
    (&& (Compressed(l.sent, ms[0]) == MINIMUM ==> l.field == TimestampField(l.sent, ms[0]))
     && Coherent(After(l, ms[0]), ms[1..]))
  }

  predicate TimestampsKept(es: seq<Expected>, ms: seq<Message>)
    requires |es| == |ms|
  {
    forall i :: 0 <= i < |ms| ==> es[i].timestamp == ms[i].timestamp
  }

  /** The application sees the senders' timestamps exactly when the run is coherent. */
  lemma {:induction false} TimestampsExact(l: Link, channel: nat, ms: seq<Message>)
    requires SendableAll(l, channel, ms)
    requires if l.sent.None? then l == FRESH else l.base == l.sent.value.timestamp
    ensures TimestampsKept(ExpectAll(l, ms), ms) <==> Coherent(l, ms)
    decreases |ms|
  {
    if ms != [] {
      KeptCons(ExpectAll(l, ms), ms);
      HeadTimestamp(l, ms[0]);
      if After(l, ms[0]).base == ms[0].timestamp {
        TimestampsExact(After(l, ms[0]), channel, ms[1..]);
      }
    }
  }

  lemma KeptCons(es: seq<Expected>, ms: seq<Message>)
    requires |es| == |ms| > 0
    ensures TimestampsKept(es, ms) <==> es[0].timestamp == ms[0].timestamp && TimestampsKept(es[1..], ms[1..])
  {
    if es[0].timestamp == ms[0].timestamp && TimestampsKept(es[1..], ms[1..]) {
      forall i | 0 <= i < |ms| ensures es[i].timestamp == ms[i].timestamp {
        assert i > 0 ==> es[i] == es[1..][i - 1] && ms[i] == ms[1..][i - 1];
      }
    }
  }

  lemma HeadTimestamp(l: Link, m: Message)
    requires Sendable(l, m)
    requires if l.sent.None? then l == FRESH else l.base == l.sent.value.timestamp
    ensures After(l, m).base == m.timestamp
            <==> (Compressed(l.sent, m) == MINIMUM ==> l.field == TimestampField(l.sent, m))
  {
  }

  /** A message given as LARGE or MEDIUM reaches type 3 only when nothing but its body is new. */
  lemma TypeThreeMeansUnchanged(l: Link, m: Message)
    requires m.headerType <= MEDIUM && Compressed(l.sent, m) == MINIMUM
    ensures l.sent == Some(SentOf(m)) && TimestampField(l.sent, m) == 0
  {
  }

  /** The property fails for a full header with timestamp 5 followed by a like message at the same time:
      the second is reported at 10. */
  lemma RepeatedTimestampDoubles(channel: nat)
    requires 2 <= channel < RTMP_CHANNELS
    ensures var m1 := Message(LARGE, channel, 5, 8, 1, [7]);
            var m2 := m1.(headerType := MEDIUM);
            && SendableAll(FRESH, channel, [m1, m2]) && !Coherent(FRESH, [m1, m2])
            && ExpectAll(FRESH, [m1, m2])[1].timestamp == 10
  {
    var m1 := Message(LARGE, channel, 5, 8, 1, [7]);
    var m2 := m1.(headerType := MEDIUM);
    var l := After(FRESH, m1);
    assert [m1, m2][1..] == [m2] && [m2][1..] == [];
    assert l == Link(Some(SentOf(m1)), 5, 5, Some(1));
    assert Compressed(l.sent, m2) == MINIMUM;
    assert After(l, m2).base == 10;
  }
}
