/** Whole connections: the bytes a run of RTMP_SendPacket calls produces, read back. */
module RtmpRun {
  import opened Bytes
  import opened RtmpChunkStream
  import opened RtmpRoundTrip

  /** m_vecChannelsOut, and the bytes a run of sends appends to the wire. */
  function Previous(out: map<nat, Sent>, channel: nat): Option<Sent> {
    if channel in out then Some(out[channel]) else None
  }

  function SendAll(out: map<nat, Sent>, ms: seq<Message>, chunkSize: ChunkSize): seq<Byte>
    decreases |ms|
  {
    if ms == [] then []
    else Flatten(Chunks(Previous(out, ms[0].channel), ms[0], chunkSize))
         + SendAll(out[ms[0].channel := SentOf(ms[0])], ms[1..], chunkSize)
  }

  // ---------- the same run as tagged chunks ----------

  /** Per-channel links; a channel never used is fresh. */
  type Links = map<nat, Link>

  function LinkOf(links: Links, channel: nat): Link {
    if channel in links then links[channel] else FRESH
  }

  function Tag(cs: seq<seq<Byte>>, channel: nat): (ts: seq<Tagged>)
    ensures |ts| == |cs|
  {
    if cs == [] then [] else [Tagged(channel, cs[0])] + Tag(cs[1..], channel)
  }

  lemma TagTail(cs: seq<seq<Byte>>, channel: nat, ts: seq<Tagged>)
    requires cs != []
    ensures (Tag(cs, channel) + ts)[0] == Tagged(channel, cs[0])
    ensures (Tag(cs, channel) + ts)[1..] == Tag(cs[1..], channel) + ts
  {
    var first, later := [Tagged(channel, cs[0])], Tag(cs[1..], channel);
    assert Tag(cs, channel) == first + later;
    hide Tag;
    ConcatAssoc(first, later, ts);
  }

  function TagAll(links: Links, ms: seq<Message>, chunkSize: ChunkSize): seq<Tagged>
    decreases |ms|
  {
    if ms == [] then []
    else
      var c, l := ms[0].channel, LinkOf(links, ms[0].channel);
      Tag(Chunks(l.sent, ms[0], chunkSize), c) + TagAll(links[c := After(l, ms[0])], ms[1..], chunkSize)
  }

  /** What arrives, in order, when the messages are sent one after the other. */
  function ExpectInOrder(links: Links, ms: seq<Message>): (es: seq<Expected>)
    ensures |es| == |ms|
    decreases |ms|
  {
    if ms == [] then []
    else
      var c, l := ms[0].channel, LinkOf(links, ms[0].channel);
      [Expect(l, ms[0])] + ExpectInOrder(links[c := After(l, ms[0])], ms[1..])
  }

  function MessagesOn(ms: seq<Message>, channel: nat): seq<Message> {
    if ms == [] then []
    else (if ms[0].channel == channel then [ms[0]] else []) + MessagesOn(ms[1..], channel)
  }

  predicate SendableRun(links: Links, ms: seq<Message>)
    decreases |ms|
  {
    ms == [] ||
    (var c, l := ms[0].channel, LinkOf(links, ms[0].channel);
     Sendable(l, ms[0]) && SendableRun(links[c := After(l, ms[0])], ms[1..]))
  }

  ghost predicate ProperLinks(links: Links) {
    forall c :: c in links ==> links[c].sent.Some?
  }

  function LineOf(links: Links, ms: seq<Message>, channels: set<nat>): map<nat, Position> {
    map c | c in channels :: Position(LinkOf(links, c), 0, MessagesOn(ms, c))
  }

  ghost predicate Covers(channels: set<nat>, ms: seq<Message>) {
    forall m :: m in ms ==> m.channel in channels
  }

  lemma {:induction false} LineIsValid(links: Links, ms: seq<Message>, c: nat)
    requires ProperLinks(links) && SendableRun(links, ms)
    ensures SendableAll(LinkOf(links, c), c, MessagesOn(ms, c))
    decreases |ms|
  {
    if ms != [] {
      var d, l := ms[0].channel, LinkOf(links, ms[0].channel);
      LineIsValid(links[d := After(l, ms[0])], ms[1..], c);
      if d == c {
        assert MessagesOn(ms, c)[1..] == MessagesOn(ms[1..], c);
      } else {
        assert MessagesOn(ms, c) == MessagesOn(ms[1..], c);
      }
    }
  }

  lemma {:induction false} OnChannelOfTag(cs: seq<seq<Byte>>, d: nat, ts: seq<Tagged>, c: nat)
    ensures OnChannel(Tag(cs, d) + ts, c) == (if c == d then cs else []) + OnChannel(ts, c)
    decreases |cs|
  {
    if cs == [] {
      assert Tag(cs, d) + ts == ts;
      assert (if c == d then cs else []) + OnChannel(ts, c) == OnChannel(ts, c);
    } else {
      OnChannelOfTag(cs[1..], d, ts, c);
      TagTail(cs, d, ts);
      if c == d {
        assert [cs[0]] + cs[1..] == cs;
        ConcatAssoc([cs[0]], cs[1..], OnChannel(ts, c));
      }
    }
  }

  lemma {:induction false} TagsCovered(links: Links, ms: seq<Message>, channels: set<nat>, chunkSize: ChunkSize)
    requires Covers(channels, ms)
    ensures forall t :: t in TagAll(links, ms, chunkSize) ==> t.channel in channels
    decreases |ms|
  {
    if ms != [] {
      var c, l := ms[0].channel, LinkOf(links, ms[0].channel);
      assert ms[0] in ms && forall m :: m in ms[1..] ==> m in ms;
      TagsCovered(links[c := After(l, ms[0])], ms[1..], channels, chunkSize);
      TagIsTagged(Chunks(l.sent, ms[0], chunkSize), c);
    }
  }

  lemma {:induction false} TagIsTagged(cs: seq<seq<Byte>>, c: nat)
    ensures forall t :: t in Tag(cs, c) ==> t.channel == c
  {
    if cs != [] {
      TagIsTagged(cs[1..], c);
    }
  }

  /** In a sequential run each channel carries exactly its own traffic. */
  lemma {:induction false} RunTraffic(links: Links, ms: seq<Message>, chunkSize: ChunkSize, c: nat)
    ensures OnChannel(TagAll(links, ms, chunkSize), c)
            == Traffic(Position(LinkOf(links, c), 0, MessagesOn(ms, c)), c, chunkSize)
    decreases |ms|
  {
    if ms != [] {
      var d, l := ms[0].channel, LinkOf(links, ms[0].channel);
      var links' := links[d := After(l, ms[0])];
      RunTraffic(links', ms[1..], chunkSize, c);
      OnChannelOfTag(Chunks(l.sent, ms[0], chunkSize), d, TagAll(links', ms[1..], chunkSize), c);
      if c == d {
        assert MessagesOn(ms, c)[1..] == MessagesOn(ms[1..], c);
        var pos := Position(l, 0, MessagesOn(ms, c));
        assert NextMessage(pos) == Position(LinkOf(links', c), 0, MessagesOn(ms[1..], c));
      } else {
        assert MessagesOn(ms, c) == MessagesOn(ms[1..], c);
      }
    }
  }

  /** A sequential run is one of the interleavings. */
  lemma RunInterleaves(links: Links, ms: seq<Message>, channels: set<nat>, chunkSize: ChunkSize)
    requires ProperLinks(links) && SendableRun(links, ms) && Covers(channels, ms)
    ensures ValidLine(LineOf(links, ms, channels))
    ensures Interleaves(TagAll(links, ms, chunkSize), LineOf(links, ms, channels), chunkSize)
  {
    var line := LineOf(links, ms, channels);
    forall c | c in line ensures line[c].Valid(c) {
      LineIsValid(links, ms, c);
    }
    forall c | c in line ensures OnChannel(TagAll(links, ms, chunkSize), c) == Traffic(line[c], c, chunkSize) {
      RunTraffic(links, ms, chunkSize, c);
    }
    TagsCovered(links, ms, channels, chunkSize);
  }

  ghost predicate Playable(ts: seq<Tagged>, line: map<nat, Position>, chunkSize: ChunkSize) {
    ValidLine(line) && Interleaves(ts, line, chunkSize)
  }

  /** The script of a playable run, as a total function. */
  ghost function Played(ts: seq<Tagged>, line: map<nat, Position>, chunkSize: ChunkSize): seq<Expected> {
    if Playable(ts, line, chunkSize) then Script(ts, line, chunkSize) else []
  }

  lemma {:induction false} ScriptStep(pos: Position, ts: seq<Tagged>, line: map<nat, Position>,
                                      chunkSize: ChunkSize, c: nat)
    requires c in line && line[c] == pos && pos.Shaped() && pos.todo != []
    requires Playable(Tag(CurrentChunks(pos, c, chunkSize), c) + ts, line, chunkSize)
    ensures var line' := line[c := Advance(pos, chunkSize)];
            var later := (if Completes(pos, chunkSize) then []
                          else Tag(CurrentChunks(Advance(pos, chunkSize), c, chunkSize), c)) + ts;
            && Playable(later, line', chunkSize)
            && Played(Tag(CurrentChunks(pos, c, chunkSize), c) + ts, line, chunkSize)
               == (if Completes(pos, chunkSize) then [Expect(pos.link, pos.todo[0])] else [])
                  + Played(later, line', chunkSize)
  {
    var cs := CurrentChunks(pos, c, chunkSize);
    ChunksAdvance(pos, c, chunkSize);
    TagTail(cs, c, ts);
    ScriptUnfolds(Tag(cs, c) + ts, line, chunkSize);
  }

  /** While one message's remaining chunks are read only that message completes. */
  lemma {:induction false} ScriptOfMessage(pos: Position, ts: seq<Tagged>, line: map<nat, Position>,
                                           chunkSize: ChunkSize, c: nat)
    requires c in line && line[c] == pos && pos.Shaped() && pos.todo != []
    requires Playable(Tag(CurrentChunks(pos, c, chunkSize), c) + ts, line, chunkSize)
    ensures Playable(ts, line[c := NextMessage(pos)], chunkSize)
    ensures Played(Tag(CurrentChunks(pos, c, chunkSize), c) + ts, line, chunkSize)
            == [Expect(pos.link, pos.todo[0])] + Played(ts, line[c := NextMessage(pos)], chunkSize)
    decreases |pos.todo[0].body| - pos.done
  {
    hide Playable, Played, CurrentChunks, Tag, Expect;
    ScriptStep(pos, ts, line, chunkSize, c);
    if Completes(pos, chunkSize) {
      assert [] + ts == ts;
    } else {
      ScriptOfMessage(Advance(pos, chunkSize), ts, line[c := Advance(pos, chunkSize)], chunkSize, c);
      assert line[c := Advance(pos, chunkSize)][c := NextMessage(pos)] == line[c := NextMessage(pos)];
    }
  }

  /** The script of a sequential run is its messages in order. */
  lemma {:induction false} ScriptOfRun(links: Links, ms: seq<Message>, channels: set<nat>, chunkSize: ChunkSize)
    requires Covers(channels, ms) && Playable(TagAll(links, ms, chunkSize), LineOf(links, ms, channels), chunkSize)
    ensures Played(TagAll(links, ms, chunkSize), LineOf(links, ms, channels), chunkSize) == ExpectInOrder(links, ms)
    decreases |ms|
  {
    if ms != [] {
      hide Playable, Played, Tag, Expect, After;
      var c, l := ms[0].channel, LinkOf(links, ms[0].channel);
      var line, links' := LineOf(links, ms, channels), links[c := After(l, ms[0])];
      NextLine(links, ms, channels);
      ScriptOfMessage(line[c], TagAll(links', ms[1..], chunkSize), line, chunkSize, c);
      ScriptOfRun(links', ms[1..], channels, chunkSize);
    }
  }

  lemma NextLine(links: Links, ms: seq<Message>, channels: set<nat>)
    requires ms != [] && Covers(channels, ms)
    ensures var c, l := ms[0].channel, LinkOf(links, ms[0].channel);
            && c in channels
            && Covers(channels, ms[1..])
            && LineOf(links, ms, channels)[c].todo != []
            && LineOf(links, ms, channels)[c := NextMessage(LineOf(links, ms, channels)[c])]
               == LineOf(links[c := After(l, ms[0])], ms[1..], channels)
  {
    hide After;
    assert ms[0] in ms && forall m :: m in ms[1..] ==> m in ms;
    var c, l := ms[0].channel, LinkOf(links, ms[0].channel);
    var line, links' := LineOf(links, ms, channels), links[c := After(l, ms[0])];
    forall d | d in channels
      ensures line[c := NextMessage(line[c])][d] == LineOf(links', ms[1..], channels)[d]
    {
      if d == c {
        assert MessagesOn(ms, c)[1..] == MessagesOn(ms[1..], c);
      } else {
        assert MessagesOn(ms, d) == MessagesOn(ms[1..], d);
      }
    }
  }

  // ---------- bytes ----------

  lemma {:induction false} WireOfTag(cs: seq<seq<Byte>>, c: nat, ts: seq<Tagged>)
    ensures WireOf(Tag(cs, c) + ts) == Flatten(cs) + WireOf(ts)
    decreases |cs|
  {
    if cs == [] {
      assert Tag(cs, c) + ts == ts;
    } else {
      WireOfTag(cs[1..], c, ts);
      TagTail(cs, c, ts);
      ConcatAssoc(cs[0], Flatten(cs[1..]), WireOf(ts));
    }
  }

  ghost predicate SameMemory(out: map<nat, Sent>, links: Links) {
    forall c: nat :: Previous(out, c) == LinkOf(links, c).sent
  }

  lemma {:induction false} WireOfRun(out: map<nat, Sent>, links: Links, ms: seq<Message>, chunkSize: ChunkSize)
    requires SameMemory(out, links)
    ensures WireOf(TagAll(links, ms, chunkSize)) == SendAll(out, ms, chunkSize)
    decreases |ms|
  {
    if ms != [] {
      var c, l := ms[0].channel, LinkOf(links, ms[0].channel);
      var out', links' := out[c := SentOf(ms[0])], links[c := After(l, ms[0])];
      assert SameMemory(out', links') by {
        forall d: nat ensures Previous(out', d) == LinkOf(links', d).sent {
          assert Previous(out, d) == LinkOf(links, d).sent;
        }
      }
      WireOfRun(out', links', ms[1..], chunkSize);
      assert Previous(out, c) == l.sent;
      WireOfTag(Chunks(l.sent, ms[0], chunkSize), c, TagAll(links', ms[1..], chunkSize));
    }
  }

  ghost predicate FreshReader(r: Reader) {
    r.channelsIn == map[] && r.channelTimestamp == map[]
  }

  /** The number of chunks a run takes. */
  function ChunkCount(ms: seq<Message>, chunkSize: ChunkSize): nat {
    |TagAll(map[], ms, chunkSize)|
  }

  /** Sending any run of messages on a fresh connection and reading the bytes back with the same chunk size
      delivers the messages in order, with the timestamps the links determine. */
  lemma SendThenRead(r: Reader, ps: seq<Packet>, ms: seq<Message>, rest: seq<Byte>)
    requires FreshReader(r) && r.chunkSize > 0 && (forall p :: p in ps ==> p.Valid())
    requires SendableRun(map[], ms) && |ps| == ChunkCount(ms, r.chunkSize)
    ensures var res := ReadRun(r, ps, SendAll(map[], ms, r.chunkSize) + rest);
            res.Some? && res.value.2 == rest && MatchesAll(res.value.1, ExpectInOrder(map[], ms))
  {
    var channels := set m | m in ms :: m.channel;
    var ts := TagAll(map[], ms, r.chunkSize);
    RunInterleaves(map[], ms, channels, r.chunkSize);
    ScriptOfRun(map[], ms, channels, r.chunkSize);
    ReaderFollowsScript(r, ps, ts, LineOf(map[], ms, channels), rest);
    WireOfRun(map[], map[], ms, r.chunkSize);
  }

  predicate SameContent(p: Packet, m: Message) {
    var a := ArrivalOf(p);
    a.channel == m.channel && a.packetType == m.packetType && a.body == m.body
  }

  /** Whatever the timestamps do, channels, types and bodies (hence lengths) come back as sent. */
  lemma {:induction false} ContentSurvives(links: Links, ds: seq<Packet>, ms: seq<Message>)
    requires MatchesAll(ds, ExpectInOrder(links, ms))
    ensures |ds| == |ms| && forall i :: 0 <= i < |ms| ==> SameContent(ds[i], ms[i])
    decreases |ms|
  {
    if ms != [] {
      var c, l := ms[0].channel, LinkOf(links, ms[0].channel);
      var es := ExpectInOrder(links, ms);
      assert Matches(ArrivalOf(ds[0]), es[0]);
      forall i | 0 <= i < |ds| - 1 ensures Matches(ArrivalOf(ds[1..][i]), es[1..][i]) {
        assert ds[1..][i] == ds[i + 1] && es[1..][i] == es[i + 1];
      }
      ContentSurvives(links[c := After(l, ms[0])], ds[1..], ms[1..]);
      forall i | 0 <= i < |ms| ensures SameContent(ds[i], ms[i]) {
        assert i > 0 ==> ds[i] == ds[1..][i - 1] && ms[i] == ms[1..][i - 1];
      }
    }
  }

  /** Coherence of a run over all channels. */
  predicate CoherentRun(links: Links, ms: seq<Message>)
    decreases |ms|
  {
    ms == [] ||
    (var c, l := ms[0].channel, LinkOf(links, ms[0].channel);
     && (Compressed(l.sent, ms[0]) == MINIMUM ==> l.field == TimestampField(l.sent, ms[0]))
     && CoherentRun(links[c := After(l, ms[0])], ms[1..]))
  }

  ghost predicate Synchronised(links: Links) {
    forall c :: c in links ==> links[c].sent.Some? && links[c].base == links[c].sent.value.timestamp
  }

  lemma {:induction false} RunTimestampsExact(links: Links, ms: seq<Message>)
    requires Synchronised(links) && SendableRun(links, ms)
    ensures TimestampsKept(ExpectInOrder(links, ms), ms) <==> CoherentRun(links, ms)
    decreases |ms|
  {
    if ms != [] {
      var c, l := ms[0].channel, LinkOf(links, ms[0].channel);
      KeptCons(ExpectInOrder(links, ms), ms);
      HeadTimestamp(l, ms[0]);
      if After(l, ms[0]).base == ms[0].timestamp {
        RunTimestampsExact(links[c := After(l, ms[0])], ms[1..]);
      }
    }
  }

  /** The round trip of a connection: contents always survive, and the timestamps survive if and only if no
      first chunk was compressed to type 3 against a timestamp field other than its own difference. */
  lemma ConnectionRoundTrip(r: Reader, ps: seq<Packet>, ms: seq<Message>)
    requires FreshReader(r) && r.chunkSize > 0 && (forall p :: p in ps ==> p.Valid())
    requires SendableRun(map[], ms) && |ps| == ChunkCount(ms, r.chunkSize)
    ensures var res := ReadRun(r, ps, SendAll(map[], ms, r.chunkSize));
            && res.Some? && res.value.2 == [] && |res.value.1| == |ms|
            && (forall i :: 0 <= i < |ms| ==> SameContent(res.value.1[i], ms[i]))
            && ((forall i :: 0 <= i < |ms| ==> res.value.1[i].timestamp == ms[i].timestamp) <==> CoherentRun(map[], ms))
  {
    SendThenRead(r, ps, ms, []);
    var wire := SendAll(map[], ms, r.chunkSize);
    assert wire + [] == wire;
    var ds, es := ReadRun(r, ps, wire).value.1, ExpectInOrder(map[], ms);
    ContentSurvives(map[], ds, ms);
    RunTimestampsExact(map[], ms);
    assert forall i :: 0 <= i < |ms| ==> Matches(ArrivalOf(ds[i]), es[i]);
  }
}
