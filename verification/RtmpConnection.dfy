/** Two RTMP objects: one sends a run of messages the way the callers of RTMP_SendPacket do, each from a buffer of
    its own, the other reads what arrives in the loop of RTMP_ConnectStream. */
module RtmpConnection {
  import opened Bytes
  import opened RtmpChunkStream
  import opened RtmpRoundTrip
  import opened RtmpRun
  import opened RtmpEndpoint

  /** The body lies behind room for the largest header. */
  method SendMessage(sender: RTMP, m: Message)
    requires m.channel < RTMP_CHANNELS && sender.outChunkSize > 0
    modifies sender`channelsOut, sender`sent
    ensures sender.sent == old(sender.sent)
                           + Flatten(Chunks(Previous(old(sender.channelsOut), m.channel), m, sender.outChunkSize))
    ensures sender.channelsOut == old(sender.channelsOut)[m.channel := SentOf(m)]
  {
    hide Chunks, Flatten, Splice;
    var pbuf := new Byte[RTMP_MAX_HEADER_SIZE + |m.body|](_ => 0);
    Copy(pbuf, RTMP_MAX_HEADER_SIZE, m.body);
    var packet := new OutPacket(m.headerType, m.packetType, m.channel, m.timestamp, m.info, |m.body|, pbuf);
    assert packet.Body() == m.body;
    assert packet.Request() == m;
    var ok := sender.SendPacket(packet);
  }

  method SendMessages(sender: RTMP, ms: seq<Message>)
    requires sender.outChunkSize > 0 && forall m :: m in ms ==> m.channel < RTMP_CHANNELS
    modifies sender`channelsOut, sender`sent
    ensures sender.sent == old(sender.sent) + SendAll(old(sender.channelsOut), ms, sender.outChunkSize)
  {
    hide Chunks, Flatten;
    ghost var all := SendAll(sender.channelsOut, ms, sender.outChunkSize);
    ghost var done: seq<Byte> := [];
    assert ms[0..] == ms && [] + all == all;
    var i := 0;
    while i < |ms|
      invariant 0 <= i <= |ms|
      invariant sender.sent == old(sender.sent) + done
      invariant done + SendAll(sender.channelsOut, ms[i..], sender.outChunkSize) == all
    {
      ghost var chunks := Flatten(Chunks(Previous(sender.channelsOut, ms[i].channel), ms[i], sender.outChunkSize));
      ghost var out' := sender.channelsOut[ms[i].channel := SentOf(ms[i])];
      assert ms[i..][0] == ms[i] && ms[i..][1..] == ms[i + 1..];
      ConcatAssoc(done, chunks, SendAll(out', ms[i + 1..], sender.outChunkSize));
      ConcatAssoc(old(sender.sent), done, chunks);
      SendMessage(sender, ms[i]);
      done := done + chunks;
      i := i + 1;
    }
    assert done + [] == done;
  }

  const BLANK: Packet := Packet(LARGE, 0, false, 0, 0, 0, 0, 0, None)

  ghost predicate AllValid(ps: seq<Packet>) {
    forall p :: p in ps ==> p.Valid()
  }

  /** Reading k more chunks, into whatever packets, consumes w and completes what is expected. */
  ghost predicate Delivers(r: Reader, w: seq<Byte>, k: nat, done: seq<Packet>, es: seq<Expected>) {
    && r.Valid()
    && forall ps :: |ps| == k && AllValid(ps) ==>
         var res := ReadRun(r, ps, w);
         res.Some? && res.value.2 == [] && MatchesAll(done + res.value.1, es)
  }

  lemma OnePacketMore(r: Reader, p: Packet, qs: seq<Packet>, w: seq<Byte>)
    requires r.Valid() && p.Valid() && AllValid(qs)
    ensures AllValid([p] + qs)
    ensures ReadRun(r, [p] + qs, w).Some? ==>
              && ReadChunk(r, p, w).Some?
              && var (r', p', used) := ReadChunk(r, p, w).value;
              && ReadRun(r', qs, w[used..]).Some?
              && var tail := ReadRun(r', qs, w[used..]).value;
              && ReadRun(r, [p] + qs, w).value == (tail.0, (if p'.Ready() then [p'] else []) + tail.1, tail.2)
  {
    hide ReadChunk;
    assert ([p] + qs)[1..] == qs;
  }

  lemma Blanks(n: nat)
    ensures AllValid(seq(n, _ => BLANK))
  {
  }

  lemma DeliversMore(r: Reader, w: seq<Byte>, k: nat, done: seq<Packet>, es: seq<Expected>, p: Packet)
    requires Delivers(r, w, k, done, es) && p.Valid() && w != []
    ensures k > 0 && ReadChunk(r, p, w).Some?
    ensures var (r', p', used) := ReadChunk(r, p, w).value;
            Delivers(r', w[used..], k - 1, done + (if p'.Ready() then [p'] else []), es)
  {
    hide ReadChunk, ReadRun, MatchesAll;
    NoPackets(r, w);
    assert k > 0;
    var blanks := seq(k - 1, _ => BLANK);
    Blanks(k - 1);
    OnePacketMore(r, p, blanks, w);
    var (r', p', used) := ReadChunk(r, p, w).value;
    var now := if p'.Ready() then [p'] else [];
    forall qs | |qs| == k - 1 && AllValid(qs)
      ensures var res := ReadRun(r', qs, w[used..]);
              res.Some? && res.value.2 == [] && MatchesAll(done + now + res.value.1, es)
    {
      OnePacketMore(r, p, qs, w);
      ConcatAssoc(done, now, ReadRun(r', qs, w[used..]).value.1);
    }
  }

  lemma NoPackets(r: Reader, w: seq<Byte>)
    requires r.Valid()
    ensures AllValid([]) && ReadRun(r, [], w) == Some((r, [], w))
  {
  }

  lemma DeliversNoMore(r: Reader, k: nat, done: seq<Packet>, es: seq<Expected>)
    requires Delivers(r, [], k, done, es)
    ensures MatchesAll(done, es)
  {
    hide ReadRun, MatchesAll, AllValid;
    if k == 0 {
      NoPackets(r, []);
      assert done + [] == done;
    } else {
      Blanks(k - 1);
      OnePacketMore(r, BLANK, seq(k - 1, _ => BLANK), []);
    }
  }

  /** Reads until the stream ends, each time into the packet of the read before, and hands on every packet that
      is complete. */
  method ReadMessages(receiver: RTMP, ghost k: nat, ghost es: seq<Expected>) returns (delivered: seq<Packet>)
    requires Delivers(receiver.Reading(), receiver.incoming, k, [], es)
    modifies receiver`incoming, receiver`channelsIn, receiver`channelTimestamp
    ensures receiver.incoming == [] && MatchesAll(delivered, es)
  {
    hide Delivers, ReadChunk, MatchesAll;
    delivered := [];
    ghost var left := k;
    var packet := BLANK;
    DeliversValid(receiver.Reading(), receiver.incoming, left, delivered, es);
    while receiver.incoming != []
      invariant packet.Valid() && receiver.Reading().Valid()
      invariant Delivers(receiver.Reading(), receiver.incoming, left, delivered, es)
      decreases |receiver.incoming|
    {
      DeliversMore(receiver.Reading(), receiver.incoming, left, delivered, es, packet);
      var ok, p := receiver.ReadPacket(packet);
      if p.Ready() {
        delivered := delivered + [p];
      } else {
        assert delivered + [] == delivered;
      }
      packet := p.(body := None);
      left := left - 1;
      DeliversValid(receiver.Reading(), receiver.incoming, left, delivered, es);
    }
    DeliversNoMore(receiver.Reading(), left, delivered, es);
  }

  lemma DeliversValid(r: Reader, w: seq<Byte>, k: nat, done: seq<Packet>, es: seq<Expected>)
    requires Delivers(r, w, k, done, es)
    ensures r.Valid()
  {
  }

  lemma {:induction false} ChannelsFit(links: Links, ms: seq<Message>)
    requires SendableRun(links, ms)
    ensures forall m :: m in ms ==> m.channel < RTMP_CHANNELS
    decreases |ms|
  {
    if ms != [] {
      var c, l := ms[0].channel, LinkOf(links, ms[0].channel);
      ChannelsFit(links[c := After(l, ms[0])], ms[1..]);
      assert ms == [ms[0]] + ms[1..];
    }
  }

  /** Everything one fresh object sends arrives at another: the receiver's loop ends with the stream read to its
      end and has delivered the messages, in order, with channel, type and body as sent, over HTTP or not. The
      timestamps are those sent if and only if the run is coherent. */
  method Exchange(sender: RTMP, receiver: RTMP, ms: seq<Message>) returns (delivered: seq<Packet>)
    requires sender != receiver && sender.sent == [] && sender.channelsOut == map[]
    requires FreshReader(receiver.Reading()) && receiver.incoming == []
    requires sender.outChunkSize == receiver.inChunkSize > 0 && SendableRun(map[], ms)
    modifies sender`channelsOut, sender`sent, receiver`incoming, receiver`channelsIn, receiver`channelTimestamp
    ensures receiver.incoming == [] && |delivered| == |ms|
    ensures forall i :: 0 <= i < |ms| ==> SameContent(delivered[i], ms[i])
    ensures (forall i :: 0 <= i < |ms| ==> delivered[i].timestamp == ms[i].timestamp) <==> CoherentRun(map[], ms)
  {
    hide SendAll, ReadRun, SendableRun, CoherentRun, ExpectInOrder, MatchesAll, ChunkCount, SameContent;
    ChannelsFit(map[], ms);
    SendMessages(sender, ms);
    receiver.incoming := sender.sent;
    ghost var es := ExpectInOrder(map[], ms);
    AllArrive(receiver.Reading(), receiver.incoming, ms);
    delivered := ReadMessages(receiver, ChunkCount(ms, receiver.inChunkSize), es);
    WhatArrives(delivered, ms);
  }

  lemma AllArrive(r: Reader, w: seq<Byte>, ms: seq<Message>)
    requires FreshReader(r) && r.chunkSize > 0 && SendableRun(map[], ms)
    requires w == [] + SendAll(map[], ms, r.chunkSize)
    ensures Delivers(r, w, ChunkCount(ms, r.chunkSize), [], ExpectInOrder(map[], ms))
  {
    hide SendAll, ReadRun, SendableRun, ExpectInOrder, MatchesAll, ChunkCount;
    forall ps | |ps| == ChunkCount(ms, r.chunkSize) && AllValid(ps)
      ensures var res := ReadRun(r, ps, w);
              res.Some? && res.value.2 == [] && MatchesAll([] + res.value.1, ExpectInOrder(map[], ms))
    {
      SendThenRead(r, ps, ms, []);
      assert w == SendAll(map[], ms, r.chunkSize) + [];
      var ds := ReadRun(r, ps, w).value.1;
      assert [] + ds == ds;
    }
  }

  lemma WhatArrives(ds: seq<Packet>, ms: seq<Message>)
    requires SendableRun(map[], ms) && MatchesAll(ds, ExpectInOrder(map[], ms))
    ensures |ds| == |ms| && forall i :: 0 <= i < |ms| ==> SameContent(ds[i], ms[i])
    ensures (forall i :: 0 <= i < |ms| ==> ds[i].timestamp == ms[i].timestamp) <==> CoherentRun(map[], ms)
  {
    hide SameContent, ExpectInOrder, CoherentRun, SendableRun, MatchesAll;
    ContentSurvives(map[], ds, ms);
    RunTimestampsExact(map[], ms);
    MatchesInTime(ds, ExpectInOrder(map[], ms));
  }

  lemma MatchesInTime(ds: seq<Packet>, es: seq<Expected>)
    requires MatchesAll(ds, es)
    ensures |ds| == |es| && forall i :: 0 <= i < |es| ==> ds[i].timestamp == es[i].timestamp
  {
    assert forall i :: 0 <= i < |ds| ==> Matches(ArrivalOf(ds[i]), es[i]);
  }
}
