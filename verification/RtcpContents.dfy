/** What a receiver reads out of the packets the builder wrote: report headers and blocks, the sources with
    their items, the sources and reason of a BYE and the data of an APP packet are those the builder was given. */
module RtcpContents {
  import opened Bytes
  import opened RtcpFormat
  import opened RtcpLayout
  import opened RtcpRoundTrip
  import opened RtcpCompound

  // ----- SDES -----

  /** An item as it lies in a packet: type, length and value. */
  function ItemRead(d: seq<Byte>, it: Item): seq<Byte> {
    if it.at + 2 + it.length <= |d| then d[it.at..it.at + 2 + it.length] else []
  }

  function ItemsRead(d: seq<Byte>, items: seq<Item>): (r: seq<seq<Byte>>)
    ensures |r| == |items|
  {
    if items == [] then [] else [ItemRead(d, items[0])] + ItemsRead(d, items[1..])
  }

  /** The SSRC in network order and the items of a chunk. */
  function SourceRead(d: seq<Byte>, c: Chunk): Source {
    Source(if c.at + 4 <= |d| then Read4(d, c.at) % TWO32 else 0, ItemsRead(d, c.items))
  }

  function SourcesRead(d: seq<Byte>, chunks: seq<Chunk>): (r: seq<Source>)
    ensures |r| == |chunks|
  {
    if chunks == [] then [] else [SourceRead(d, chunks[0])] + SourcesRead(d, chunks[1..])
  }

  /** What lies at a position, front and rest. */
  lemma FrontAndRest(d: seq<Byte>, pos: nat, front: seq<Byte>, rest: seq<Byte>)
    requires pos <= |d| && d[pos..] == front + rest
    ensures pos + |front| <= |d| && d[pos..pos + |front|] == front && d[pos + |front|..] == rest
  {
    assert d[pos..pos + |front|] == d[pos..][..|front|];
    assert d[pos + |front|..] == d[pos..][|front|..];
  }

  lemma ItemReadBack(d: seq<Byte>, pos: nat, item: seq<Byte>)
    requires ValidItem(item) && pos + |item| <= |d| && d[pos..pos + |item|] == item
    ensures ItemRead(d, Item(pos, item[0], |item| - SDES_HEADER)) == item
  {
  }

  lemma {:induction false} ItemsReadBack(d: seq<Byte>, pos: nat, items: seq<seq<Byte>>, later: seq<Byte>)
    requires pos <= |d| && d[pos..] == Flatten(items) + later
    requires forall i :: 0 <= i < |items| ==> ValidItem(items[i])
    ensures ItemsRead(d, LayoutItems(items, pos)) == items
    decreases |items|
  {
    hide ItemRead, Flatten;
    if items != [] {
      var item, rest := items[0], Flatten(items[1..]) + later;
      assert ValidItem(item);
      FlattenCons(items);
      ConcatAssoc(item, Flatten(items[1..]), later);
      FrontAndRest(d, pos, item, rest);
      ItemReadBack(d, pos, item);
      ItemsReadBack(d, pos + |item|, items[1..], later);
      assert LayoutItems(items, pos)[1..] == LayoutItems(items[1..], pos + |item|);
      assert [item] + items[1..] == items;
    }
  }

  lemma WordThere(d: seq<Byte>, pos: nat, v: U32, later: seq<Byte>)
    requires pos <= |d| && d[pos..] == Be32(v) + later
    ensures pos + 4 <= |d| && Read4(d, pos) == v
  {
    hide Be32, Read4;
    Digits(v);
    FrontAndRest(d, pos, Be32(v), later);
    ReadWhere(d, pos, Be32(v));
  }

  lemma SourceReadBack(d: seq<Byte>, pos: nat, s: Source, later: seq<Byte>, next: nat)
    requires pos <= |d| && d[pos..] == ChunkBytes(s) + later && s.Valid()
    ensures SourceRead(d, Chunk(pos, LayoutItems(s.items, pos + 4), next)) == s
  {
    hide Be32, Read4, SourceBytes, LayoutItems, ItemsRead, Zeros, Flatten;
    var z := Zeros(SourceBytes(s.ItemBytes()) - 4 - s.ItemBytes());
    ChunkFollows(d, pos, s, later);
    ConcatAssoc(Be32(s.ssrc) + Flatten(s.items), z, later);
    ConcatAssoc(Be32(s.ssrc), Flatten(s.items), z + later);
    WordThere(d, pos, s.ssrc, Flatten(s.items) + (z + later));
    ItemsReadBack(d, pos + 4, s.items, z + later);
  }

  lemma {:induction false} SourcesReadBack(d: seq<Byte>, pos: nat, sources: seq<Source>)
    requires pos <= |d| && d[pos..] == ChunksOf(sources) && ValidSources(sources)
    ensures SourcesRead(d, LayoutChunks(sources, pos)) == sources
    decreases |sources|
  {
    hide ChunkBytes, SourceBytes, LayoutItems, SourceRead;
    if sources != [] {
      var s, later := sources[0], ChunksOf(sources[1..]);
      var next := pos + SourceBytes(s.ItemBytes());
      assert d[pos..] == ChunkBytes(s) + later;
      ChunkFollows(d, pos, s, later);
      SourceReadBack(d, pos, s, later, next);
      SourcesReadBack(d, next, sources[1..]);
      assert LayoutChunks(sources, pos)[1..] == LayoutChunks(sources[1..], next);
      assert [s] + sources[1..] == sources;
    }
  }

  /** What the packet walker finds in an SDES packet, read there, are the sources it was written from. */
  lemma SdesReadBack(sources: seq<Source>)
    requires |sources| <= MAX_COUNT && ValidSources(sources)
    ensures var p := SdesPacket(sources);
            |p| >= COMMON_HEADER && SdesWalk(p).Some? && SourcesRead(p, SdesWalk(p).value) == sources
  {
    hide ChunksOf, LayoutChunks, SourcesRead, SdesWalk, Known, Headed;
    SdesPacketHeaded(sources);
    SdesPacketKnown(sources);
    LongEnough(SdesPacket(sources), SDES, |sources|);
    SourcesReadBack(SdesPacket(sources), COMMON_HEADER, sources);
  }

  /** One source and item, in plain terms: its SSRC in network order at the start of its chunk, the item's type,
      length and value where the walk says. */
  lemma {:induction false} SourceAt(d: seq<Byte>, chunks: seq<Chunk>, i: nat)
    requires i < |chunks|
    ensures SourcesRead(d, chunks)[i] == SourceRead(d, chunks[i])
    decreases i
  {
    if i > 0 {
      SourceAt(d, chunks[1..], i - 1);
    }
  }

  lemma {:induction false} ItemAt(d: seq<Byte>, items: seq<Item>, k: nat)
    requires k < |items|
    ensures ItemsRead(d, items)[k] == ItemRead(d, items[k])
    decreases k
  {
    if k > 0 {
      ItemAt(d, items[1..], k - 1);
    }
  }

  // ----- reports -----

  /** The sender of a report, and its sender info if it is a sender report. */
  function HeaderRead(p: seq<Byte>): seq<Byte> {
    if |p| >= 28 && p[1] == 200 then p[4..28] else if |p| >= 8 then p[4..8] else []
  }

  /** n blocks of 24 bytes from position i on. */
  function BlocksAt(p: seq<Byte>, i: nat, n: nat): (r: seq<seq<Byte>>)
    decreases n
  {
    if n == 0 || i + 24 > |p| then [] else [p[i..i + 24]] + BlocksAt(p, i + 24, n - 1)
  }

  function BlocksRead(p: seq<Byte>): seq<seq<Byte>> {
    if |p| < 2 then []
    else if p[1] == 200 then BlocksAt(p, 28, p[0] % 32)
    else if p[1] == 201 then BlocksAt(p, 8, p[0] % 32)
    else []
  }

  lemma {:induction false} BlocksReadBack(p: seq<Byte>, i: nat, blocks: seq<seq<Byte>>)
    requires i <= |p| && p[i..] == Flatten(blocks)
    requires forall k :: 0 <= k < |blocks| ==> |blocks[k]| == RECEIVER_REPORT
    ensures BlocksAt(p, i, |blocks|) == blocks
    decreases |blocks|
  {
    if blocks != [] {
      var b := blocks[0];
      assert p[i..i + 24] == p[i..][..24] == b;
      assert p[i + 24..] == p[i..][24..] == Flatten(blocks[1..]);
      BlocksReadBack(p, i + 24, blocks[1..]);
      assert [b] + blocks[1..] == blocks;
    }
  }

  lemma FirstBytes(ptype: Byte, count: nat, size: nat, rest: seq<Byte>)
    requires count <= MAX_COUNT && size >= COMMON_HEADER
    ensures var p := Header(ptype, count, size) + rest;
            && |p| >= 4 && p[0] / 64 == 2 && p[0] / 32 % 2 == 0 && p[0] % 32 == count && p[1] == ptype
            && Read2(p, 2) == (size / 4 - 1) % 0x1_0000 && p[4..] == rest
  {
    hide Be16, Read2;
    var w := (size / 4 - 1) % 0x1_0000;
    var p := Header(ptype, count, size) + rest;
    Digits(w);
    assert p[2..4] == Be16(w);
    ReadWhere(p, 2, Be16(w));
    assert (128 + count) / 64 == 2 && (128 + count) / 32 % 2 == 0 && (128 + count) % 32 == count;
  }

  lemma ReportReadBack(asSR: bool, headerdata: seq<Byte>, blocks: seq<seq<Byte>>)
    requires |blocks| <= MAX_COUNT && |headerdata| >= 4 && (asSR ==> |headerdata| == 4 + SENDER_REPORT)
    requires forall k :: 0 <= k < |blocks| ==> |blocks[k]| == RECEIVER_REPORT
    ensures var p := ReportPacket(asSR, headerdata, blocks);
            && |p| >= 8 && p[1] == (if asSR then 200 else 201)
            && HeaderRead(p) == (if asSR then headerdata else headerdata[..4]) && BlocksRead(p) == blocks
  {
    hide Header, Flatten, BlocksAt;
    var head := if asSR then headerdata else headerdata[..4];
    var body := head + Flatten(blocks);
    var p := ReportPacket(asSR, headerdata, blocks);
    FirstBytes(if asSR then SR else RR, |blocks|, COMMON_HEADER + |body|, body);
    assert p[4..4 + |head|] == p[4..][..|head|] == head;
    assert p[4 + |head|..] == p[4..][|head|..] == Flatten(blocks);
    BlocksReadBack(p, 4 + |head|, blocks);
  }

  // ----- BYE and APP -----

  lemma {:induction false} WordsThere(d: seq<Byte>, pos: nat, ws: seq<U32>, later: seq<Byte>, i: nat)
    requires pos <= |d| && d[pos..] == Be32All(ws) + later && i < |ws|
    ensures pos + 4 * i + 4 <= |d| && Read4(d, pos + 4 * i) == ws[i]
    decreases i
  {
    hide Be32, Read4;
    var rest := Be32All(ws[1..]) + later;
    ConcatAssoc(Be32(ws[0]), Be32All(ws[1..]), later);
    if i == 0 {
      WordThere(d, pos, ws[0], rest);
    } else {
      assert d[pos + 4..] == d[pos..][4..] == rest;
      WordsThere(d, pos + 4, ws[1..], later, i - 1);
    }
  }

  /** What follows the sources of a BYE packet. */
  function ByeRest(n: nat, reason: seq<Byte>): (tail: seq<Byte>)
    requires |reason| <= 255
    ensures |tail| == ByeSize(n, |reason|) - 4 - 4 * n
  {
    var size := ByeSize(n, |reason|);
    if reason == [] then [] else [|reason|] + reason + Zeros(size - COMMON_HEADER - 4 * n - 1 - |reason|)
  }

  lemma ByeParts(ssrcs: seq<U32>, reason: seq<Byte>)
    requires |ssrcs| <= MAX_COUNT && |reason| <= 255
    ensures ByePacket(ssrcs, reason)
            == Header(BYE, |ssrcs|, ByeSize(|ssrcs|, |reason|)) + (Be32All(ssrcs) + ByeRest(|ssrcs|, reason))
  {
    hide Header, Be32All, Zeros, ByeSize;
    ConcatAssoc(Header(BYE, |ssrcs|, ByeSize(|ssrcs|, |reason|)), Be32All(ssrcs), ByeRest(|ssrcs|, reason));
  }

  /** A BYE packet: the number of sources in the header, their SSRCs, and then the length and text of the reason,
      if there is one, padded with zeros to a multiple of four. */
  lemma ByeReadBack(ssrcs: seq<U32>, reason: seq<Byte>)
    requires |ssrcs| <= MAX_COUNT && |reason| <= 255
    ensures var p := ByePacket(ssrcs, reason);
            var at := 4 + 4 * |ssrcs|;
            && |p| >= at && |p| % 4 == 0 && p[0] / 64 == 2 && p[0] % 32 == |ssrcs| && p[1] == 203
            && Read2(p, 2) == (|p| / 4 - 1) % 0x1_0000
            && (forall i :: 0 <= i < |ssrcs| ==> 4 + 4 * i + 4 <= |p| && Read4(p, 4 + 4 * i) == ssrcs[i])
            && (reason == [] ==> |p| == at)
            && (reason != [] ==>
                  && at + 1 + |reason| <= |p| < at + 1 + |reason| + 4
                  && p[at] == |reason| && p[at + 1..at + 1 + |reason|] == reason
                  && forall k :: at + 1 + |reason| <= k < |p| ==> p[k] == 0)
  {
    hide Header, Be32All, Read2, Read4, ByeRest, ByeSize, ByePacket;
    var p, size := ByePacket(ssrcs, reason), ByeSize(|ssrcs|, |reason|);
    ByeHead(ssrcs, reason);
    ByeTail(|ssrcs|, reason, size);
    ReasonThere(p, |ssrcs|, reason);
  }

  lemma ByeHead(ssrcs: seq<U32>, reason: seq<Byte>)
    requires |ssrcs| <= MAX_COUNT && |reason| <= 255
    ensures var p, at := ByePacket(ssrcs, reason), 4 + 4 * |ssrcs|;
            && |p| >= at && p[0] / 64 == 2 && p[0] % 32 == |ssrcs| && p[1] == 203
            && Read2(p, 2) == (|p| / 4 - 1) % 0x1_0000
            && (forall i :: 0 <= i < |ssrcs| ==> 4 + 4 * i + 4 <= |p| && Read4(p, 4 + 4 * i) == ssrcs[i])
            && p[at..] == ByeRest(|ssrcs|, reason)
  {
    hide Header, Be32All, Read2, Read4, ByeRest, ByeSize, ByePacket;
    var p, size := ByePacket(ssrcs, reason), ByeSize(|ssrcs|, |reason|);
    var tail := ByeRest(|ssrcs|, reason);
    ByeParts(ssrcs, reason);
    FirstBytes(BYE, |ssrcs|, size, Be32All(ssrcs) + tail);
    forall i | 0 <= i < |ssrcs| ensures 4 + 4 * i + 4 <= |p| && Read4(p, 4 + 4 * i) == ssrcs[i] {
      WordsThere(p, 4, ssrcs, tail, i);
    }
    FrontAndRest(p, 4, Be32All(ssrcs), tail);
  }

  lemma ByeTail(n: nat, reason: seq<Byte>, size: nat)
    requires |reason| <= 255 && size == ByeSize(n, |reason|)
    ensures var at := 4 + 4 * n;
            && (reason == [] ==> size == at)
            && (reason != [] ==> at + 1 + |reason| <= size < at + 1 + |reason| + 4)
  {
  }

  lemma ReasonThere(p: seq<Byte>, n: nat, reason: seq<Byte>)
    requires |reason| <= 255 && 4 + 4 * n <= |p| && p[4 + 4 * n..] == ByeRest(n, reason)
    ensures reason != [] ==>
              var at := 4 + 4 * n;
              && at + 1 + |reason| <= |p| && p[at] == |reason| && p[at + 1..at + 1 + |reason|] == reason
              && forall k :: at + 1 + |reason| <= k < |p| ==> p[k] == 0
  {
    if reason != [] {
      var at, tail := 4 + 4 * n, ByeRest(n, reason);
      ByeTail(n, reason, ByeSize(n, |reason|));
      assert p[at + 1..at + 1 + |reason|] == tail[1..1 + |reason|] == reason;
      forall k | at + 1 + |reason| <= k < |p| ensures p[k] == 0 {
        assert p[k] == tail[k - at];
      }
    }
  }

  /** An APP packet: subtype in the header, then sender, name and data. */
  lemma AppReadBack(subtype: nat, ssrc: U32, name: seq<Byte>, data: seq<Byte>)
    requires subtype <= MAX_COUNT && |name| == 4 && |data| % 4 == 0
    ensures var p := AppPacket(subtype, ssrc, name, data);
            && |p| == 12 + |data| && p[0] / 64 == 2 && p[0] % 32 == subtype && p[1] == 204
            && Read2(p, 2) == (|p| / 4 - 1) % 0x1_0000
            && Read4(p, 4) == ssrc && p[8..12] == name && p[12..] == data
  {
    hide Header, Be32, Read2, Read4;
    var p := AppPacket(subtype, ssrc, name, data);
    var h := Header(APP, subtype, COMMON_HEADER + 8 + |data|);
    Sections(h, Be32(ssrc), name, data);
    ConcatAssoc(h, Be32(ssrc), name);
    ConcatAssoc(h, Be32(ssrc) + name, data);
    FirstBytes(APP, subtype, COMMON_HEADER + 8 + |data|, Be32(ssrc) + name + data);
    ConcatAssoc(Be32(ssrc), name, data);
    WordThere(p, 4, ssrc, name + data);
  }

  // ----- the whole compound packet -----

  function PacketSources(p: seq<Byte>): seq<Source> {
    if |p| >= COMMON_HEADER && p[1] == 202 && SdesWalk(p).Some? then SourcesRead(p, SdesWalk(p).value) else []
  }

  function AllSources(ps: seq<seq<Byte>>): seq<Source> {
    if ps == [] then [] else PacketSources(ps[0]) + AllSources(ps[1..])
  }

  function AllBlocks(ps: seq<seq<Byte>>): seq<seq<Byte>> {
    if ps == [] then [] else BlocksRead(ps[0]) + AllBlocks(ps[1..])
  }

  /** The packets of one type, in order. */
  function OfKind(ps: seq<seq<Byte>>, ptype: Byte): seq<seq<Byte>> {
    if ps == [] then [] else (if |ps[0]| > 1 && ps[0][1] == ptype then [ps[0]] else []) + OfKind(ps[1..], ptype)
  }

  predicate NoneOf(ps: seq<seq<Byte>>, ptype: Byte) {
    forall i :: 0 <= i < |ps| ==> |ps[i]| > 1 && ps[i][1] != ptype
  }

  lemma {:induction false} ReadConcat(ps: seq<seq<Byte>>, qs: seq<seq<Byte>>, t: Byte)
    ensures AllSources(ps + qs) == AllSources(ps) + AllSources(qs)
    ensures AllBlocks(ps + qs) == AllBlocks(ps) + AllBlocks(qs)
    ensures OfKind(ps + qs, t) == OfKind(ps, t) + OfKind(qs, t)
    decreases |ps|
  {
    hide PacketSources, BlocksRead;
    if ps == [] {
      assert ps + qs == qs;
    } else {
      ReadConcat(ps[1..], qs, t);
      assert (ps + qs)[1..] == ps[1..] + qs;
      ConcatAssoc(PacketSources(ps[0]), AllSources(ps[1..]), AllSources(qs));
      ConcatAssoc(BlocksRead(ps[0]), AllBlocks(ps[1..]), AllBlocks(qs));
    }
  }

  lemma {:induction false} NoSources(ps: seq<seq<Byte>>)
    requires NoneOf(ps, 202)
    ensures AllSources(ps) == []
  {
    hide SourcesRead, SdesWalk;
    if ps != [] {
      NoSources(ps[1..]);
    }
  }

  lemma {:induction false} NoBlocks(ps: seq<seq<Byte>>)
    requires NoneOf(ps, 200) && NoneOf(ps, 201)
    ensures AllBlocks(ps) == []
  {
    hide BlocksAt;
    if ps != [] {
      NoBlocks(ps[1..]);
    }
  }

  lemma {:induction false} Kinds(ps: seq<seq<Byte>>, t: Byte)
    ensures NoneOf(ps, t) ==> OfKind(ps, t) == []
    ensures OfType(ps, t) ==> OfKind(ps, t) == ps
    decreases |ps|
  {
    if ps != [] {
      Kinds(ps[1..], t);
      assert [ps[0]] + ps[1..] == ps;
    }
  }

  predicate Reports(ps: seq<seq<Byte>>) {
    forall i :: 0 <= i < |ps| ==> |ps[i]| > 1 && (ps[i][1] == 200 || ps[i][1] == 201)
  }

  lemma {:induction false} ReportsReadBack(asSR: bool, headerdata: seq<Byte>, blocks: seq<seq<Byte>>)
    requires |headerdata| >= 4 && (asSR ==> |headerdata| == 4 + SENDER_REPORT)
    requires forall k :: 0 <= k < |blocks| ==> |blocks[k]| == RECEIVER_REPORT
    ensures var ps := ReportPackets(asSR, headerdata, blocks);
            && Reports(ps) && |ps[0]| > 1 && ps[0][1] == (if asSR then 200 else 201)
            && HeaderRead(ps[0]) == (if asSR then headerdata else headerdata[..4]) && AllBlocks(ps) == blocks
    decreases |blocks|
  {
    hide ReportPacket, BlocksRead, HeaderRead;
    var n := Min(MAX_COUNT, |blocks|);
    var ps := ReportPackets(asSR, headerdata, blocks);
    ReportReadBack(asSR, headerdata, blocks[..n]);
    if n < |blocks| {
      ReportsReadBack(false, headerdata, blocks[n..]);
      assert ps[1..] == ReportPackets(false, headerdata, blocks[n..]);
      assert blocks[..n] + blocks[n..] == blocks;
    } else {
      assert ps[1..] == [] && blocks[..n] == blocks;
      assert blocks + [] == blocks;
    }
  }

  lemma {:induction false} SdesAllReadBack(sources: seq<Source>)
    requires ValidSources(sources)
    ensures OfType(SdesPackets(sources), SDES) && AllSources(SdesPackets(sources)) == sources
    decreases |sources|
  {
    hide SdesPacket, SdesWalk, SourcesRead;
    if sources != [] {
      var n := Min(MAX_COUNT, |sources|);
      var ps := SdesPackets(sources);
      SdesReadBack(sources[..n]);
      SdesType(sources[..n]);
      SdesAllReadBack(sources[n..]);
      assert ps[0] == SdesPacket(sources[..n]) && ps[1..] == SdesPackets(sources[n..]);
      assert sources[..n] + sources[n..] == sources;
      assert forall i :: 0 < i < |ps| ==> ps[i] == ps[1..][i - 1];
    }
  }

  lemma SdesType(sources: seq<Source>)
    requires |sources| <= MAX_COUNT
    ensures |SdesPacket(sources)| > 1 && SdesPacket(sources)[1] == SDES
  {
    hide ChunksOf, SumBytes;
  }

  /** Everything the builder was given is read back from the packets it lays out: the report with its sender,
      sender info and blocks, the sources with their items, the APP and the BYE packets, each in order. */
  lemma ContentsReadBack(c: Content)
    requires c.Valid() && c.report.headerdata != []
    ensures |c.report.headerdata| >= 4
    ensures var ps := Packets(c);
            && |ps[0]| > 1 && (ps[0][1] == 200 <==> c.report.isSR) && HeaderRead(ps[0]) == c.report.headerdata
            && AllBlocks(ps) == c.report.blocks && AllSources(ps) == c.sources
            && OfKind(ps, 204) == c.apps && OfKind(ps, 203) == c.byes
  {
    hide ReportPackets, SdesPackets, AllBlocks, AllSources, OfKind, HeaderRead, AllHeaded, AllKnown, AllFit;
    var r := ReportPackets(c.report.isSR, c.report.headerdata, c.report.blocks);
    var s := SdesPackets(c.sources);
    assert !c.report.isSR ==> c.report.headerdata[..4] == c.report.headerdata;
    ReportsReadBack(c.report.isSR, c.report.headerdata, c.report.blocks);
    SdesAllReadBack(c.sources);
    PartsReadBack(r, s, c.apps, c.byes, 203);
    PartsReadBack(r, s, c.apps, c.byes, 204);
  }

  lemma PartsReadBack(r: seq<seq<Byte>>, s: seq<seq<Byte>>, a: seq<seq<Byte>>, b: seq<seq<Byte>>, t: Byte)
    requires Reports(r) && OfType(s, SDES) && OfType(a, APP) && OfType(b, BYE) && (t == 203 || t == 204)
    ensures var ps := r + s + a + b;
            && AllBlocks(ps) == AllBlocks(r) && AllSources(ps) == AllSources(s)
            && OfKind(ps, t) == if t == 203 then b else a
  {
    hide AllBlocks, AllSources, OfKind, Reports, OfType;
    ReadConcat(r, s, t);
    ReadConcat(r + s, a, t);
    ReadConcat(r + s + a, b, t);
    PartsRead(r, s, a, b, t);
    Sides(AllSources(s));
    Sides(AllBlocks(r));
    Sides(a);
    Sides(b);
  }

  lemma Sides<T>(a: seq<T>)
    ensures [] + a == a && a + [] == a
  {
  }

  lemma PartsRead(r: seq<seq<Byte>>, s: seq<seq<Byte>>, a: seq<seq<Byte>>, b: seq<seq<Byte>>, t: Byte)
    requires Reports(r) && OfType(s, SDES) && OfType(a, APP) && OfType(b, BYE) && (t == 203 || t == 204)
    ensures AllSources(r) == [] && AllSources(a) == [] && AllSources(b) == []
    ensures AllBlocks(s) == [] && AllBlocks(a) == [] && AllBlocks(b) == []
    ensures OfKind(r, t) == [] && OfKind(s, t) == []
    ensures OfKind(a, t) == (if t == 204 then a else []) && OfKind(b, t) == if t == 203 then b else []
  {
    hide AllBlocks, AllSources, OfKind;
    NoSources(r);
    NoSources(a);
    NoSources(b);
    NoBlocks(s);
    NoBlocks(a);
    NoBlocks(b);
    Kinds(r, t);
    Kinds(s, t);
    Kinds(a, t);
    Kinds(b, t);
  }

  /** The packets, cut out of the bytes by a list of entries. */
  function CutOut(bytes: seq<Byte>, entries: seq<Entry>): (r: seq<seq<Byte>>)
    ensures |r| == |entries|
  {
    if entries == [] then [] else [Slice(bytes, entries[0])] + CutOut(bytes, entries[1..])
  }

  function Slice(bytes: seq<Byte>, e: Entry): seq<Byte> {
    if e.at + e.length <= |bytes| then bytes[e.at..e.at + e.length] else []
  }

  /** The builder's list cuts the finished bytes into the packets laid out. */
  lemma {:induction false} CutOutPackets(before: seq<Byte>, ps: seq<seq<Byte>>)
    ensures CutOut(before + Flatten(ps), EntriesOf(ps, |before|)) == ps
    decreases |ps|
  {
    if ps != [] {
      var p, rest := ps[0], Flatten(ps[1..]);
      FlattenCons(ps);
      ConcatAssoc(before, p, rest);
      var bytes := before + (p + rest);
      assert bytes[|before|..|before| + |p|] == p;
      CutOutPackets(before + p, ps[1..]);
      assert EntriesOf(ps, |before|)[1..] == EntriesOf(ps[1..], |before + p|);
      assert [p] + ps[1..] == ps;
    }
  }
}
