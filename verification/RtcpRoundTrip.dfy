/** What the builder writes parses back: headers, formats, SDES chunks and items, and the packet list. */
module RtcpRoundTrip {
  import opened Arithmetic
  import opened Bytes
  import opened RtcpFormat
  import opened RtcpLayout

  predicate AllKnown(ps: seq<seq<Byte>>) {
    ps == [] || (|ps[0]| >= COMMON_HEADER && Known(ps[0]) && AllKnown(ps[1..]))
  }

  lemma {:induction false} KnownConcat(ps: seq<seq<Byte>>, qs: seq<seq<Byte>>)
    requires AllKnown(ps) && AllKnown(qs)
    ensures AllKnown(ps + qs)
    decreases |ps|
  {
    hide Known;
    if ps == [] {
      assert ps + qs == qs;
    } else {
      KnownConcat(ps[1..], qs);
      assert (ps + qs)[1..] == ps[1..] + qs;
    }
  }

  lemma NotPadded(p: seq<Byte>)
    requires |p| >= COMMON_HEADER && !Padding(p)
    ensures Unpadded(p) == Some(|p|)
  {
  }

  // ---------- reports ----------

  lemma ReportPacketKnown(asSR: bool, headerdata: seq<Byte>, blocks: seq<seq<Byte>>)
    requires |blocks| <= MAX_COUNT && |headerdata| >= 4 && (asSR ==> |headerdata| == 4 + SENDER_REPORT)
    requires forall i :: 0 <= i < |blocks| ==> |blocks[i]| == RECEIVER_REPORT
    ensures var p := ReportPacket(asSR, headerdata, blocks);
            Headed(p, if asSR then SR else RR, |blocks|) && Known(p) && |p| <= MAX_PACKET
  {
    var p := ReportPacket(asSR, headerdata, blocks);
    BlockBytes(blocks);
    hide Header, Flatten;
    assert p[..COMMON_HEADER] == Header(if asSR then SR else RR, |blocks|, |p|);
    HeaderTellsTruth(p, if asSR then SR else RR, |blocks|);
  }

  lemma {:induction false} ReportPacketsKnown(asSR: bool, headerdata: seq<Byte>, blocks: seq<seq<Byte>>)
    requires |headerdata| >= 4 && (asSR ==> |headerdata| == 4 + SENDER_REPORT)
    requires forall i :: 0 <= i < |blocks| ==> |blocks[i]| == RECEIVER_REPORT
    ensures var ps := ReportPackets(asSR, headerdata, blocks);
            AllHeaded(ps) && AllKnown(ps) && AllFit(ps) && |ps[0]| > 1 && ps[0][1] == if asSR then SR else RR
    decreases |blocks|
  {
    hide Known, Headed;
    var n := Min(MAX_COUNT, |blocks|);
    var ps, first := ReportPackets(asSR, headerdata, blocks), ReportPacket(asSR, headerdata, blocks[..n]);
    ReportPacketKnown(asSR, headerdata, blocks[..n]);
    HeaderTellsTruth(first, if asSR then SR else RR, n);
    LongEnough(first, if asSR then SR else RR, n);
    assert SomeHeader(first);
    if n < |blocks| {
      ReportPacketsKnown(false, headerdata, blocks[n..]);
      assert ps[1..] == ReportPackets(false, headerdata, blocks[n..]);
    } else {
      assert ps[1..] == [];
    }
  }

  // ---------- SDES ----------

  function LayoutItems(items: seq<seq<Byte>>, pos: nat): seq<Item>
    requires forall i :: 0 <= i < |items| ==> ValidItem(items[i])
  {
    if items == [] then []
    else
      assert ValidItem(items[0]);
      [Item(pos, items[0][0], |items[0]| - SDES_HEADER)] + LayoutItems(items[1..], pos + |items[0]|)
  }

  function LayoutChunks(sources: seq<Source>, pos: nat): seq<Chunk>
    requires ValidSources(sources)
  {
    if sources == [] then []
    else
      var next := pos + SourceBytes(sources[0].ItemBytes());
      [Chunk(pos, LayoutItems(sources[0].items, pos + 4), next)] + LayoutChunks(sources[1..], next)
  }

  lemma WalkOneItem(d: seq<Byte>, start: nat, pos: nat, item: seq<Byte>, later: seq<Byte>)
    requires start <= pos <= |d| && d[pos..] == item + later && ValidItem(item)
    ensures pos + |item| <= |d| && d[pos + |item|..] == later
    ensures var rest := WalkItems(d, |d|, start, pos + |item|);
            WalkItems(d, |d|, start, pos)
            == if rest.None? then None
               else Some(([Item(pos, item[0], |item| - SDES_HEADER)] + rest.value.0, rest.value.1))
  {
    assert d[pos] == d[pos..][0] == item[0] && d[pos + 1] == d[pos..][1] == item[1];
    assert d[pos + |item|..] == d[pos..][|item|..];
  }

  lemma WalkEnd(d: seq<Byte>, start: nat, pos: nat, z: nat, rest: seq<Byte>)
    requires start <= pos <= |d| && d[pos..] == Zeros(z) + rest && z > 0 && Aligned(start, pos + 1) == pos + z
    ensures WalkItems(d, |d|, start, pos) == Some(([], pos + z))
  {
    assert d[pos] == d[pos..][0] == Zeros(z)[0];
  }

  lemma {:induction false} ItemsWalk(d: seq<Byte>, start: nat, pos: nat, items: seq<seq<Byte>>, z: nat, rest: seq<Byte>)
    requires start <= pos <= |d| && d[pos..] == Flatten(items) + (Zeros(z) + rest)
    requires forall i :: 0 <= i < |items| ==> ValidItem(items[i])
    requires z > 0 && Aligned(start, pos + |Flatten(items)| + 1) == pos + |Flatten(items)| + z
    ensures WalkItems(d, |d|, start, pos) == Some((LayoutItems(items, pos), pos + |Flatten(items)| + z))
    decreases |items|
  {
    hide WalkItems, ValidItem, Aligned;
    if items == [] {
      assert [] + (Zeros(z) + rest) == Zeros(z) + rest;
      WalkEnd(d, start, pos, z, rest);
    } else {
      var item, later := items[0], Flatten(items[1..]) + (Zeros(z) + rest);
      assert ValidItem(item);
      ConcatAssoc(item, Flatten(items[1..]), Zeros(z) + rest);
      WalkOneItem(d, start, pos, item, later);
      ItemsWalk(d, start, pos + |item|, items[1..], z, rest);
    }
  }

  lemma AlignedChunk(start: nat, itemBytes: nat)
    ensures Aligned(start, start + 4 + itemBytes + 1) == start + SourceBytes(itemBytes)
  {
  }

  lemma {:induction false} ChunksWalk(d: seq<Byte>, pos: nat, sources: seq<Source>)
    requires pos <= |d| && d[pos..] == ChunksOf(sources) && ValidSources(sources)
    ensures WalkChunks(d, |d|, pos, |sources|) == Some(LayoutChunks(sources, pos))
    decreases |sources|
  {
    hide Be32, Aligned, SourceBytes, WalkItems;
    if sources != [] {
      var s, later := sources[0], ChunksOf(sources[1..]);
      var z := SourceBytes(s.ItemBytes()) - 4 - s.ItemBytes();
      assert d[pos..] == ChunkBytes(s) + later;
      ChunkFollows(d, pos, s, later);
      AlignedChunk(pos, s.ItemBytes());
      ItemsWalk(d, pos, pos + 4, s.items, z, later);
      ChunksWalk(d, pos + SourceBytes(s.ItemBytes()), sources[1..]);
    }
  }

  lemma ChunkFollows(d: seq<Byte>, pos: nat, s: Source, later: seq<Byte>)
    requires pos <= |d| && d[pos..] == ChunkBytes(s) + later
    ensures pos + SourceBytes(s.ItemBytes()) <= |d|
    ensures d[pos + 4..] == Flatten(s.items) + (Zeros(SourceBytes(s.ItemBytes()) - 4 - s.ItemBytes()) + later)
    ensures d[pos + SourceBytes(s.ItemBytes())..] == later
  {
    hide Be32, SourceBytes, Flatten;
    var id, items, z := Be32(s.ssrc), Flatten(s.items), Zeros(SourceBytes(s.ItemBytes()) - 4 - s.ItemBytes());
    assert d[pos..] == id + (items + (z + later)) by {
      ConcatAssoc(id + items, z, later);
      ConcatAssoc(id, items, z + later);
    }
    assert d[pos + 4..] == d[pos..][4..];
    assert d[pos + SourceBytes(s.ItemBytes())..] == d[pos..][SourceBytes(s.ItemBytes())..];
  }

  lemma SdesPacketHeaded(sources: seq<Source>)
    requires |sources| <= MAX_COUNT && ValidSources(sources)
    ensures var p := SdesPacket(sources);
            Headed(p, SDES, |sources|) && p[COMMON_HEADER..] == ChunksOf(sources)
  {
    hide Header, ChunksOf, SumBytes, ValidSources;
    var h, chunks := Header(SDES, |sources|, COMMON_HEADER + SumBytes(sources)), ChunksOf(sources);
    SumAligned(sources);
    Multiples4(COMMON_HEADER, SumBytes(sources));
    assert |chunks| == SumBytes(sources);
    assert (h + chunks)[..COMMON_HEADER] == h && (h + chunks)[COMMON_HEADER..] == chunks;
  }

  lemma KnownByWalk(p: seq<Byte>)
    requires |p| >= COMMON_HEADER && p[1] == SDES && Unpadded(p) == Some(|p|)
    ensures SdesWalk(p) == WalkChunks(p, |p|, COMMON_HEADER, Count(p))
    ensures Known(p) <==> SdesWalk(p).Some?
  {
    hide Unpadded, WalkChunks, Count;
  }

  /** The validator accepts every SDES packet the builder writes and finds exactly its chunks and items. */
  lemma SdesPacketKnown(sources: seq<Source>)
    requires |sources| <= MAX_COUNT && ValidSources(sources)
    ensures var p := SdesPacket(sources);
            Headed(p, SDES, |sources|) && Known(p) && SdesWalk(p) == Some(LayoutChunks(sources, COMMON_HEADER))
  {
    hide Header, Headed, Known, SdesPacket, SdesWalk, ChunksOf, WalkChunks, LayoutChunks, Unpadded, Count, Padding;
    var p := SdesPacket(sources);
    SdesPacketHeaded(sources);
    LongEnough(p, SDES, |sources|);
    HeaderTellsTruth(p, SDES, |sources|);
    NotPadded(p);
    KnownByWalk(p);
    ChunksWalk(p, COMMON_HEADER, sources);
  }

  lemma {:induction false} SumAligned(sources: seq<Source>)
    ensures SumBytes(sources) % 4 == 0
    decreases |sources|
  {
    hide SourceBytes;
    if sources != [] {
      SumAligned(sources[1..]);
      Multiples4(SourceBytes(sources[0].ItemBytes()), SumBytes(sources[1..]));
    }
  }

  lemma {:induction false} SdesPacketsKnown(sources: seq<Source>)
    requires ValidSources(sources)
    ensures AllHeaded(SdesPackets(sources)) && AllKnown(SdesPackets(sources))
    decreases |sources|
  {
    hide Known, Headed;
    if sources != [] {
      var n := Min(MAX_COUNT, |sources|);
      var ps, first := SdesPackets(sources), SdesPacket(sources[..n]);
      SdesPacketKnown(sources[..n]);
      LongEnough(first, SDES, n);
      assert SomeHeader(first);
      SdesPacketsKnown(sources[n..]);
      assert ps[1..] == SdesPackets(sources[n..]);
    }
  }
}
