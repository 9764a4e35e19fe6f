/** From builder to receiver: the finished buffer is parsed, its SDES packets are walked with the cursor of
    RTCPSDESPacket, and what its accessors return is what the builder was given. */
module RtcpDelivery {
  import opened Bytes
  import opened RtcpFormat
  import opened RtcpLayout
  import opened RtcpRoundTrip
  import opened RtcpCompound
  import opened RtcpContents
  import opened RtcpBuilder
  import opened RtcpReader

  /** What the accessors tell of one source: its SSRC, and type and value of each item. */
  datatype Heard = Heard(ssrc: U32, items: seq<(ItemType, seq<Byte>)>)

  function ItemHeard(item: seq<Byte>): (ItemType, seq<Byte>) {
    if |item| >= 2 then (TypeOf(item[0]), item[2..]) else (NoItem, [])
  }

  function ItemsHeard(items: seq<seq<Byte>>): (r: seq<(ItemType, seq<Byte>)>)
    ensures |r| == |items|
  {
    if items == [] then [] else ItemsHeard(items[..|items| - 1]) + [ItemHeard(items[|items| - 1])]
  }

  function SourceHeard(s: Source): Heard {
    Heard(s.ssrc, ItemsHeard(s.items))
  }

  function SourcesHeard(ss: seq<Source>): (r: seq<Heard>)
    ensures |r| == |ss|
  {
    if ss == [] then [] else SourcesHeard(ss[..|ss| - 1]) + [SourceHeard(ss[|ss| - 1])]
  }

  lemma ItemsHeardMore(items: seq<seq<Byte>>, k: nat)
    requires k < |items|
    ensures ItemsHeard(items[..k + 1]) == ItemsHeard(items[..k]) + [ItemHeard(items[k])]
  {
    assert items[..k + 1][..k] == items[..k];
  }

  lemma SourcesHeardMore(ss: seq<Source>, i: nat)
    requires i < |ss|
    ensures SourcesHeard(ss[..i + 1]) == SourcesHeard(ss[..i]) + [SourceHeard(ss[i])]
  {
    assert ss[..i + 1][..i] == ss[..i];
  }

  lemma {:induction false} SourcesHeardConcat(a: seq<Source>, b: seq<Source>)
    ensures SourcesHeard(a + b) == SourcesHeard(a) + SourcesHeard(b)
    decreases |b|
  {
    if b == [] {
      assert a + b == a;
    } else {
      var n := |b| - 1;
      SourcesHeardConcat(a, b[..n]);
      assert (a + b)[..|a + b| - 1] == a + b[..n];
    }
  }

  lemma SplitItem(d: seq<Byte>, at: nat, length: nat)
    requires at + 2 + length <= |d|
    ensures var v := d[at..at + 2 + length]; |v| >= 2 && v[0] == d[at] && v[2..] == d[at + 2..at + 2 + length]
  {
  }

  /** The items of the chunk the cursor is on, with the accessors. */
  method ListenToItems(p: RTCPSDESPacket) returns (items: seq<(ItemType, seq<Byte>)>)
    requires p.Valid() && p.knownformat && p.currentchunk.Some?
    modifies p`itemoffset, p`itemIndex
    ensures p.Valid() && p.currentchunk.Some? && p.Current() == old(p.Current())
    ensures items == ItemsHeard(ItemsRead(p.data, p.Current().items))
  {
    hide WalkItems, WalkChunks, SdesWalk, ItemsHeard, ItemsRead;
    ghost var c := p.Current();
    ghost var all := ItemsRead(p.data, c.items);
    NoneHeard();
    items := [];
    var another := p.GotoFirstItem();
    while another
      invariant p.Valid() && p.knownformat && p.currentchunk.Some? && p.Current() == c && c in p.Walk()
      invariant |items| <= |c.items| && items == ItemsHeard(all[..|items|])
      invariant if another then p.itemIndex == |items| < |c.items| else |items| == |c.items|
      decreases |c.items| - |items|, another
    {
      p.ItemInWalk(c, p.itemIndex);
      ItemAt(p.data, c.items, p.itemIndex);
      ItemsHeardMore(all, |items|);
      var t := p.GetItemType();
      var at, length := p.GetItemData();
      SplitItem(p.data, c.items[p.itemIndex].at, length);
      items := items + [(t, p.data[at..at + length])];
      another := p.GotoNextItem();
    }
    assert all[..|all|] == all;
  }

  lemma NoneHeard()
    ensures ItemsHeard([]) == [] && SourcesHeard([]) == []
  {
  }

  /** A whole SDES packet, chunk by chunk. */
  method Listen(p: RTCPSDESPacket) returns (heard: seq<Heard>)
    requires p.Valid() && p.knownformat
    modifies p
    ensures heard == SourcesHeard(SourcesRead(p.data, SdesWalk(p.data).value))
  {
    hide WalkItems, WalkChunks, SdesWalk, SourcesHeard, SourcesRead, ItemsHeard, ItemsRead, Read4;
    ghost var walk := p.Walk();
    ghost var all := SourcesRead(p.data, walk);
    NoneHeard();
    heard := [];
    var more := p.GotoFirstChunk();
    while more
      invariant p.Valid() && p.knownformat
      invariant more ==> p.currentchunk.Some? && p.itemIndex == 0 && |heard| == p.curchunknum - 1
      invariant |heard| <= |walk| && heard == SourcesHeard(all[..|heard|])
      invariant !more ==> |heard| == |walk|
      decreases |walk| - |heard|, more
    {
      ghost var c, i := p.Current(), |heard|;
      p.ItemHereIn(c);
      SourceAt(p.data, walk, i);
      SourcesHeardMore(all, i);
      var ssrc := p.GetChunkSSRC();
      DigitsRead(p.data, c.at);
      var items := ListenToItems(p);
      heard := heard + [Heard(ssrc, items)];
      more := p.GotoNextChunk();
    }
    assert all[..|all|] == all;
  }

  /** The packet of an entry lies in the bytes and is of its type. */
  predicate Lies(bytes: seq<Byte>, e: Entry) {
    e.at + e.length <= |bytes| && e.length >= 4 && bytes[e.at + 1] == e.ptype
  }

  predicate AllLie(bytes: seq<Byte>, entries: seq<Entry>) {
    entries == [] || (Lies(bytes, entries[0]) && AllLie(bytes, entries[1..]))
  }

  method ListenToOne(bytes: seq<Byte>, e: Entry) returns (heard: seq<Heard>)
    requires Lies(bytes, e)
    ensures heard == SourcesHeard(PacketSources(Slice(bytes, e)))
  {
    hide SourcesHeard, SdesWalk, SourcesRead, Read4;
    NoneHeard();
    var d := bytes[e.at..e.at + e.length];
    assert d[1] == bytes[e.at + 1];
    heard := [];
    if e.ptype == SDES {
      var p := new RTCPSDESPacket(d);
      if p.knownformat {
        heard := Listen(p);
      }
    }
  }

  /** What is heard from all SDES packets in a list. */
  method ListenToAll(bytes: seq<Byte>, entries: seq<Entry>) returns (heard: seq<Heard>)
    requires AllLie(bytes, entries)
    ensures heard == SourcesHeard(AllSources(CutOut(bytes, entries)))
  {
    hide SourcesHeard, PacketSources, Lies, Slice;
    NoneHeard();
    heard := [];
    ghost var done: seq<Source> := [];
    ghost var all := AllSources(CutOut(bytes, entries));
    assert entries[0..] == entries && [] + all == all;
    for i := 0 to |entries|
      invariant heard == SourcesHeard(done) && done + AllSources(CutOut(bytes, entries[i..])) == all
      invariant AllLie(bytes, entries[i..])
    {
      OneMore(bytes, entries[i..], done);
      assert entries[i..][0] == entries[i] && entries[i..][1..] == entries[i + 1..];
      var here := ListenToOne(bytes, entries[i]);
      heard := heard + here;
      done := done + PacketSources(Slice(bytes, entries[i]));
    }
    assert done + [] == done;
  }

  lemma OneMore(bytes: seq<Byte>, entries: seq<Entry>, done: seq<Source>)
    requires AllLie(bytes, entries) && entries != []
    ensures Lies(bytes, entries[0]) && AllLie(bytes, entries[1..])
    ensures var here, rest := PacketSources(Slice(bytes, entries[0])), AllSources(CutOut(bytes, entries[1..]));
            && done + AllSources(CutOut(bytes, entries)) == done + here + rest
            && SourcesHeard(done + here) == SourcesHeard(done) + SourcesHeard(here)
  {
    hide SourcesHeard, PacketSources, Slice, Lies;
    var here, rest := PacketSources(Slice(bytes, entries[0])), CutOut(bytes, entries[1..]);
    var all := CutOut(bytes, entries);
    assert all[0] == Slice(bytes, entries[0]) && all[1..] == rest;
    ConcatAssoc(done, here, AllSources(rest));
    SourcesHeardConcat(done, here);
  }

  lemma {:induction false} EntriesLie(before: seq<Byte>, ps: seq<seq<Byte>>)
    requires forall i :: 0 <= i < |ps| ==> |ps[i]| >= 4
    ensures AllLie(before + Flatten(ps), EntriesOf(ps, |before|))
    decreases |ps|
  {
    if ps != [] {
      var p, rest := ps[0], Flatten(ps[1..]);
      FlattenCons(ps);
      ConcatAssoc(before, p, rest);
      assert (before + (p + rest))[|before| + 1] == p[1];
      EntriesLie(before + p, ps[1..]);
      assert EntriesOf(ps, |before|)[1..] == EntriesOf(ps[1..], |before + p|);
    }
  }

  lemma {:induction false} HeadedLong(ps: seq<seq<Byte>>)
    requires AllHeaded(ps)
    ensures forall i :: 0 <= i < |ps| ==> |ps[i]| >= 4
    decreases |ps|
  {
    if ps != [] {
      HeadedLong(ps[1..]);
      assert forall i :: 0 < i < |ps| ==> ps[i] == ps[1..][i - 1];
    }
  }

  /** A finished build within 2^18 bytes, received: the parser accepts the buffer, and over all its SDES packets
      the cursor and the accessors give back every source and every item that was added, in order. */
  method Deliver(builder: RTCPCompoundPacketBuilder) returns (heard: seq<Heard>)
    requires builder.Valid() && builder.arebuilding && builder.headerdata != []
    requires builder.Content().Total() <= MAX_PACKET
    requires builder.external ==> builder.Content().Total() <= builder.maximumpacketsize
    modifies builder, if builder.external then {builder.buffer} else {}
    ensures heard == SourcesHeard(old(builder.Content()).sources)
  {
    hide Packets, AllHeaded, AllKnown, AllFit, Parse, EntriesOf, CutOut, AllSources, SourcesHeard, Flatten, SdesPackets;
    hide RtcpCompound.Content.Valid, AllBlocks, OfKind, HeaderRead, AllLie;
    ghost var c := builder.Content();
    EndSizeExact(c);
    ghost var ps := Packets(c);
    var _ := builder.EndBuild();
    var bytes := builder.compoundpacket[..builder.compoundpacketlength];
    SdesPacketsExact(c.sources);
    SmallPacketsFit(SdesPackets(c.sources));
    CompoundRoundTrip(c);
    var received := new RTCPCompoundPacket(bytes);
    PacketsWellBuilt(c);
    HeadedLong(ps);
    assert [] + Flatten(ps) == Flatten(ps);
    EntriesLie([], ps);
    CutOutPackets([], ps);
    ContentsReadBack(c);
    heard := ListenToAll(bytes, received.rtcppacklist);
  }
}
