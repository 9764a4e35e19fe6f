/** RTCPCompoundPacketBuilder as a mutable object: lists and running totals updated call by call, and
    EndBuild filling a byte buffer. Every call is tied to RtcpCompound. */
module RtcpBuilder {
  import opened Arithmetic
  import opened Bytes
  import opened RtcpFormat
  import opened RtcpLayout
  import opened RtcpCompound

  datatype Result = Done(status: Status) | NotBuilding | AlreadyBuilding | AlreadyBuilt | SizeTooSmall | NoReportPresent

  const DONE_OK := Done(Ok)

  /** SDESSource with its cached item size. */
  datatype SDESSource = SDESSource(ssrc: U32, items: seq<seq<Byte>>, totalitemsize: nat) {
    ghost predicate Valid() {
      totalitemsize == |Flatten(items)|
    }

    function Abstract(): Source {
      Source(ssrc, items)
    }
  }

  function Sources(ss: seq<SDESSource>): (r: seq<Source>)
    ensures |r| == |ss| && forall i :: 0 <= i < |ss| ==> r[i] == ss[i].Abstract()
  {
    seq(|ss|, i requires 0 <= i < |ss| => ss[i].Abstract())
  }

  /** SDES::NeededBytes over the first n sources, summing in list order. */
  lemma {:induction false} SumSnoc(ss: seq<Source>, i: nat)
    requires i < |ss|
    ensures SumBytes(ss[..i + 1]) == SumBytes(ss[..i]) + SourceBytes(ss[i].ItemBytes())
  {
    assert ss[..i + 1] == ss[..i] + [ss[i]];
    SumConcat(ss[..i], [ss[i]]);
    assert [ss[i]][1..] == [];
  }

  class RTCPCompoundPacketBuilder {
    var maximumpacketsize: nat
    var buffer: array?<Byte>
    var external: bool
    var arebuilding: bool
    var isSR: bool
    var headerdata: seq<Byte>
    var reportblocks: seq<seq<Byte>>
    var sdessources: seq<SDESSource>
    var byepackets: seq<seq<Byte>>
    var byesize: nat
    var apppackets: seq<seq<Byte>>
    var appsize: nat
    var compoundpacket: array?<Byte>
    var compoundpacketlength: nat
    var rtcppacklist: seq<Entry>

    ghost function Content(): Content
      reads this
    {
      RtcpCompound.Content(Report(isSR, headerdata, reportblocks), Sources(sdessources), apppackets, byepackets)
    }

    ghost predicate Valid()
      reads this
    {
      && Content().Valid()
      && byesize == |Flatten(byepackets)| && appsize == |Flatten(apppackets)|
      && (forall i :: 0 <= i < |sdessources| ==> sdessources[i].Valid())
      && maximumpacketsize < SIZE_T
      && (arebuilding ==> RTP_MINPACKETSIZE <= maximumpacketsize && compoundpacket == null)
      && (arebuilding && external ==> buffer != null && buffer.Length == maximumpacketsize)
      && (!arebuilding ==> Content() == EMPTY)
      && (compoundpacket == null ==> rtcppacklist == [])
    }

    constructor ()
      ensures Valid() && !arebuilding && compoundpacket == null && rtcppacklist == []
    {
      maximumpacketsize, buffer, external, arebuilding := 0, null, false, false;
      isSR, headerdata, reportblocks, sdessources := false, [], [], [];
      byepackets, byesize, apppackets, appsize := [], 0, [], 0;
      compoundpacket, compoundpacketlength, rtcppacklist := null, 0, [];
      new;
      EmptyIsValid();
      assert Content() == EMPTY;
    }

    /** Both InitBuild overloads; a null buffer means the packet is allocated by EndBuild. */
    method InitBuild(size: nat, externalbuffer: array?<Byte>) returns (r: Result)
      requires Valid() && size < SIZE_T && (externalbuffer != null ==> externalbuffer.Length == size)
      modifies this
      ensures Valid() && Content() == old(Content())
      ensures r == if old(arebuilding) then AlreadyBuilding
                   else if old(compoundpacket) != null then AlreadyBuilt
                   else if size < RTP_MINPACKETSIZE then SizeTooSmall
                   else DONE_OK
      ensures r == DONE_OK ==> arebuilding && maximumpacketsize == size && buffer == externalbuffer
                               && external == (externalbuffer != null)
      ensures r != DONE_OK ==> arebuilding == old(arebuilding) && maximumpacketsize == old(maximumpacketsize)
    {
      hide Flatten, AllHeaded, AllFit, OfType, Report.Valid, ValidSources;
      FlattenNone();
      if arebuilding {
        return AlreadyBuilding;
      }
      if compoundpacket != null {
        return AlreadyBuilt;
      }
      if size < RTP_MINPACKETSIZE {
        return SizeTooSmall;
      }
      maximumpacketsize := size;
      buffer, external := externalbuffer, externalbuffer != null;
      byesize, appsize := 0, 0;
      arebuilding := true;
      return DONE_OK;
    }

    // ----- size predictors -----

    method SdesNeeded() returns (x: nat)
      requires Valid()
      ensures x == SdesBytes(Content().sources)
    {
      hide Flatten, SourceBytes;
      if |sdessources| == 0 {
        return 0;
      }
      ghost var ss := Sources(sdessources);
      x := 0;
      for i := 0 to |sdessources|
        invariant x == SumBytes(ss[..i])
      {
        SumSnoc(ss, i);
        x := x + SourceBytes(sdessources[i].totalitemsize);
      }
      assert ss[..|ss|] == ss;
      var n := |sdessources|;
      var d, r := n / 31, n % 31;
      if r != 0 {
        d := d + 1;
      }
      x := x + d * COMMON_HEADER;
    }

    method SdesNeededWithItem(itemlength: nat) returns (x: nat)
      requires Valid()
      ensures x == SdesBytesWithItem(Content().sources, itemlength)
    {
      hide Flatten, SourceBytes;
      if |sdessources| == 0 {
        return 0;
      }
      ghost var ss := Sources(sdessources);
      var last := |sdessources| - 1;
      x := 0;
      for i := 0 to last
        invariant x == SumBytes(ss[..i])
      {
        SumSnoc(ss, i);
        x := x + SourceBytes(sdessources[i].totalitemsize);
      }
      x := x + SourceBytes(sdessources[last].totalitemsize + SDES_HEADER + itemlength);
      x := x + Groups(|sdessources|) * COMMON_HEADER;
    }

    method SdesNeededWithSource() returns (x: nat)
      requires Valid()
      ensures x == SdesBytesWithSource(Content().sources)
    {
      hide Flatten, SourceBytes;
      if |sdessources| == 0 {
        return 0;
      }
      ghost var ss := Sources(sdessources);
      x := 0;
      for i := 0 to |sdessources|
        invariant x == SumBytes(ss[..i])
      {
        SumSnoc(ss, i);
        x := x + SourceBytes(sdessources[i].totalitemsize);
      }
      assert ss[..|ss|] == ss;
      x := x + 4 * 2;
      x := x + Groups(|sdessources| + 1) * COMMON_HEADER;
    }

    function ReportNeeded(): (x: nat)
      reads this
      ensures x == ReportBytes(Report(isSR, headerdata, reportblocks))
    {
      var n := |reportblocks|;
      if n == 0 then (if |headerdata| == 0 then 0 else COMMON_HEADER + |headerdata|)
      else
        n * RECEIVER_REPORT + (if n % 31 != 0 then n / 31 + 1 else n / 31) * (COMMON_HEADER + 4)
        + (if isSR then SENDER_REPORT else 0)
    }

    /** What every call promises: the effect and status of Perform while building, nothing otherwise. */
    twostate predicate Performed(call: Call, r: Result)
      reads this
    {
      && arebuilding == old(arebuilding) && maximumpacketsize == old(maximumpacketsize)
      && buffer == old(buffer) && external == old(external) && compoundpacket == old(compoundpacket)
      && (!old(arebuilding) ==> r == NotBuilding && Content() == old(Content()))
      && (old(arebuilding) ==>
            && WellTyped(call)
            && var p := Perform(old(Content()), maximumpacketsize, call); Content() == p.0 && r == Done(p.1))
    }

    // ----- calls -----

    method StartReport(sr: bool, ssrc: U32, info: seq<Byte>) returns (r: Result)
      requires Valid() && (sr ==> |info| == SENDER_REPORT)
      modifies this`isSR, this`headerdata
      ensures Valid()
      ensures Performed(if sr then Call.StartSenderReport(ssrc, info) else Call.StartReceiverReport(ssrc), r)
    {
      hide Flatten, AllHeaded, AllFit, SdesBytes;
      ghost var c := Content();
      ghost var call := if sr then Call.StartSenderReport(ssrc, info) else Call.StartReceiverReport(ssrc);
      if !arebuilding {
        return NotBuilding;
      }
      if |headerdata| != 0 {
        return Done(AlreadyGotReport);
      }
      var sdes := SdesNeeded();
      var totalsize := byesize + appsize + sdes;
      var sizeleft := (maximumpacketsize - totalsize) % SIZE_T;
      var neededsize := COMMON_HEADER + 4 + (if sr then SENDER_REPORT else 0);
      if neededsize > sizeleft {
        return Done(NotEnoughBytesLeft);
      }
      isSR := sr;
      headerdata := Be32(ssrc) + (if sr then info else []);
      assert Be32(ssrc) + [] == Be32(ssrc);
      return DONE_OK;
    }

    method AddReportBlock(block: seq<Byte>) returns (r: Result)
      requires Valid() && |block| == RECEIVER_REPORT
      modifies this`reportblocks
      ensures Valid() && Performed(Call.AddReportBlock(block), r)
    {
      hide Flatten, AllHeaded, AllFit, SdesBytes;
      if !arebuilding {
        return NotBuilding;
      }
      if |headerdata| == 0 {
        return Done(ReportNotStarted);
      }
      var sdes := SdesNeeded();
      var n := |reportblocks| + 1;
      var withblock := n * RECEIVER_REPORT + Groups(n) * (COMMON_HEADER + 4) + (if isSR then SENDER_REPORT else 0);
      if byesize + appsize + sdes + withblock > maximumpacketsize {
        return Done(NotEnoughBytesLeft);
      }
      reportblocks := reportblocks + [block];
      return DONE_OK;
    }

    method AddSDESSource(ssrc: U32) returns (r: Result)
      requires Valid()
      modifies this`sdessources
      ensures Valid() && Performed(Call.AddSDESSource(ssrc), r)
    {
      hide AllHeaded, AllFit, SdesBytesWithSource;
      if !arebuilding {
        return NotBuilding;
      }
      var sdes := SdesNeededWithSource();
      if byesize + appsize + ReportNeeded() + sdes > maximumpacketsize {
        return Done(NotEnoughBytesLeft);
      }
      sdessources := sdessources + [SDESSource(ssrc, [], 0)];
      assert Sources(sdessources) == old(Content()).sources + [Source(ssrc, [])];
      return DONE_OK;
    }

    /** Stores one finished item with the current source if there is room. */
    method AddItem(id: Byte, value: seq<Byte>) returns (r: Result)
      requires Valid() && arebuilding && id != 0 && |value| <= 255
      modifies this`sdessources
      ensures Valid()
      ensures var p := RtcpCompound.AddItem(old(Content()), maximumpacketsize, id, value);
              Content() == p.0 && r == Done(p.1)
    {
      hide Flatten, AllHeaded, AllFit, SdesBytesWithItem;
      ghost var c := Content();
      if |sdessources| == 0 {
        return Done(NoCurrentSource);
      }
      var sdes := SdesNeededWithItem(|value|);
      if sdes + (byesize + appsize + ReportNeeded()) > maximumpacketsize {
        return Done(NotEnoughBytesLeft);
      }
      var item := [id, |value|] + value;
      var last := |sdessources| - 1;
      var s := sdessources[last];
      SnocFlatten(s.items, item);
      ItemAdded(c, item);
      sdessources := sdessources[last := SDESSource(s.ssrc, s.items + [item], s.totalitemsize + |item|)];
      assert Sources(sdessources) == WithItem(c, item).sources;
      return DONE_OK;
    }

    method AddSDESNormalItem(id: Byte, value: seq<Byte>) returns (r: Result)
      requires Valid() && |value| <= 255
      modifies this`sdessources
      ensures Valid() && Performed(Call.AddSDESNormalItem(id, value), r)
    {
      if !arebuilding {
        return NotBuilding;
      }
      if |sdessources| == 0 {
        return Done(NoCurrentSource);
      }
      if !IsNormalItem(id) {
        return Done(InvalidItemType);
      }
      r := AddItem(id, value);
    }

    method AddSDESPrivateItem(prefix: seq<Byte>, value: seq<Byte>) returns (r: Result)
      requires Valid() && |prefix| <= 255 && |value| <= 255
      modifies this`sdessources
      ensures Valid() && Performed(Call.AddSDESPrivateItem(prefix, value), r)
    {
      if !arebuilding {
        return NotBuilding;
      }
      if |sdessources| == 0 {
        return Done(NoCurrentSource);
      }
      if |prefix| + 1 + |value| > 255 {
        return Done(TotalItemLengthTooBig);
      }
      r := AddItem(PRIVATE, [|prefix|] + prefix + value);
    }

    method AddBYEPacket(ssrcs: seq<U32>, reason: seq<Byte>) returns (r: Result)
      requires Valid() && |ssrcs| <= 255 && |reason| <= 255
      modifies this`byepackets, this`byesize
      ensures Valid() && Performed(Call.AddBYEPacket(ssrcs, reason), r)
    {
      hide Flatten, AllHeaded, AllFit, SdesBytes, ByePacket, Headed, Known;
      if !arebuilding {
        return NotBuilding;
      }
      if |ssrcs| > MAX_COUNT {
        return Done(TooManySsrcs);
      }
      var packsize := ByeSize(|ssrcs|, |reason|);
      var sdes := SdesNeeded();
      if appsize + byesize + sdes + ReportNeeded() + packsize > maximumpacketsize {
        return Done(NotEnoughBytesLeft);
      }
      ByePacketKnown(ssrcs, reason);
      SnocPackets(byepackets, ByePacket(ssrcs, reason), BYE, |ssrcs|);
      byepackets := byepackets + [ByePacket(ssrcs, reason)];
      byesize := byesize + packsize;
      return DONE_OK;
    }

    method AddAPPPacket(subtype: Byte, ssrc: U32, name: seq<Byte>, data: seq<Byte>) returns (r: Result)
      requires Valid() && |name| == 4
      modifies this`apppackets, this`appsize
      ensures Valid() && Performed(Call.AddAPPPacket(subtype, ssrc, name, data), r)
    {
      hide Flatten, AllHeaded, AllFit, SdesBytes, AppPacket, Headed, Known;
      if !arebuilding {
        return NotBuilding;
      }
      if subtype > MAX_COUNT {
        return Done(IllegalSubtype);
      }
      if |data| % 4 != 0 {
        return Done(IllegalAppDataLength);
      }
      if |data| / 4 + 2 > 65535 {
        return Done(AppDataLenTooBig);
      }
      var packsize := COMMON_HEADER + 4 * 2 + |data|;
      var sdes := SdesNeeded();
      if appsize + byesize + sdes + ReportNeeded() + packsize > maximumpacketsize {
        return Done(NotEnoughBytesLeft);
      }
      AppPacketKnown(subtype, ssrc, name, data);
      SnocPackets(apppackets, AppPacket(subtype, ssrc, name, data), APP, subtype);
      apppackets := apppackets + [AppPacket(subtype, ssrc, name, data)];
      appsize := appsize + packsize;
      return DONE_OK;
    }

    // ----- EndBuild -----

    /** memcpy behind what has been written so far. */
    static method Put(buf: array<Byte>, pos: nat, data: seq<Byte>) returns (next: nat)
      requires pos + |data| <= buf.Length
      modifies buf
      ensures next == pos + |data| && buf[..next] == old(buf[..pos]) + data
    {
      Copy(buf, pos, data);
      next := pos + |data|;
      assert Splice(old(buf[..]), pos, data)[..next] == old(buf[..pos]) + data;
    }

    /** Fills in version, count, type and length once the body behind the gap left for them is known. */
    static method PutHeader(buf: array<Byte>, at: nat, ptype: Byte, count: nat, size: nat, ghost before: seq<Byte>,
                            ghost gap: seq<Byte>, ghost body: seq<Byte>)
      requires count <= MAX_COUNT && |gap| == COMMON_HEADER && size == COMMON_HEADER + |body|
      requires at == |before| && at + size <= buf.Length && buf[..at + size] == before + gap + body
      modifies buf
      ensures buf[..at + size] == before + (Header(ptype, count, size) + body)
    {
      hide Header;
      ghost var h, all := Header(ptype, count, size), buf[..];
      Copy(buf, at, Header(ptype, count, size));
      FillGap(all, before, gap, body, h);
    }

    /** The next up to 31 blocks, one behind the other. */
    static method PutBlocks(buf: array<Byte>, start: nat, blocks: seq<seq<Byte>>, it: nat)
      returns (offset: nat, done: nat)
      requires it <= |blocks|
      requires start + |Flatten(blocks[it..it + Min(MAX_COUNT, |blocks| - it)])| <= buf.Length
      modifies buf
      ensures done == it + Min(MAX_COUNT, |blocks| - it)
      ensures offset == start + |Flatten(blocks[it..done])|
      ensures buf[..offset] == old(buf[..start]) + Flatten(blocks[it..done])
    {
      hide Flatten;
      ghost var group := blocks[it..it + Min(MAX_COUNT, |blocks| - it)];
      var count := 0;
      offset, done := start, it;
      FlattenNone();
      while done != |blocks| && count < 31
        invariant it <= done <= |blocks| && count == done - it <= |group|
        invariant offset == start + |Flatten(group[..count])| <= buf.Length
        invariant buf[..offset] == old(buf[..start]) + Flatten(group[..count])
      {
        assert group[count] == blocks[done];
        assert group[..count + 1] == group[..count] + [group[count]];
        SnocFlatten(group[..count], blocks[done]);
        FlattenPrefix(group, count + 1);
        ConcatAssoc(old(buf[..start]), Flatten(group[..count]), blocks[done]);
        offset := Put(buf, offset, blocks[done]);
        count := count + 1;
        done := done + 1;
      }
      assert group[..|group|] == group;
    }

    /** One report with the next up to 31 blocks. */
    method PutReport(buf: array<Byte>, curbuf: nat, asSR: bool, it: nat) returns (next: nat, done: nat, entry: Entry)
      requires |headerdata| >= 4 && it <= |reportblocks|
      requires var n := Min(MAX_COUNT, |reportblocks| - it);
               curbuf + |ReportPacket(asSR, headerdata, reportblocks[it..it + n])| <= buf.Length
      modifies buf
      ensures done == it + Min(MAX_COUNT, |reportblocks| - it)
      ensures var p := ReportPacket(asSR, headerdata, reportblocks[it..done]);
              && next == curbuf + |p| && buf[..next] == old(buf[..curbuf]) + p
              && entry == Entry(if asSR then SR else RR, curbuf, |p|)
    {
      hide Flatten, Header;
      ghost var before, gap := buf[..curbuf], buf[curbuf..curbuf + COMMON_HEADER];
      ghost var head := if asSR then headerdata else headerdata[..4];
      assert buf[..curbuf + COMMON_HEADER] == before + gap;
      var offset := Put(buf, curbuf + COMMON_HEADER, if asSR then headerdata else headerdata[..4]);
      offset, done := PutBlocks(buf, offset, reportblocks, it);
      ghost var blocks := Flatten(reportblocks[it..done]);
      ConcatAssoc(before + gap, head, blocks);
      PutHeader(buf, curbuf, if asSR then SR else RR, done - it, offset - curbuf, before, gap, head + blocks);
      return offset, done, Entry(if asSR then SR else RR, curbuf, offset - curbuf);
    }

    /** One SDES chunk: SSRC, items, end marker, zero bytes up to a multiple of four. */
    static method PutSource(buf: array<Byte>, base: nat, start: nat, s: SDESSource) returns (offset: nat)
      requires base <= start && (start - base) % 4 == 0 && start + |ChunkBytes(s.Abstract())| <= buf.Length
      modifies buf
      ensures offset == start + |ChunkBytes(s.Abstract())|
      ensures buf[..offset] == old(buf[..start]) + ChunkBytes(s.Abstract())
    {
      hide Flatten, Be32;
      ghost var before, id := buf[..start], Be32(s.ssrc);
      offset := Put(buf, start, Be32(s.ssrc));
      FlattenNone();
      for i := 0 to |s.items|
        invariant offset == start + 4 + |Flatten(s.items[..i])|
        invariant offset <= buf.Length && buf[..offset] == before + id + Flatten(s.items[..i])
      {
        assert s.items[..i + 1] == s.items[..i] + [s.items[i]];
        SnocFlatten(s.items[..i], s.items[i]);
        FlattenPrefix(s.items, i + 1);
        ConcatAssoc(before + id, Flatten(s.items[..i]), s.items[i]);
        offset := Put(buf, offset, s.items[i]);
      }
      assert s.items[..|s.items|] == s.items;
      offset := PutZeros(buf, base, offset, before, id, Flatten(s.items));
    }

    /** The end of the item list and the alignment behind it. */
    static method PutZeros(buf: array<Byte>, base: nat, start: nat, ghost before: seq<Byte>, ghost id: seq<Byte>,
                           ghost items: seq<Byte>) returns (offset: nat)
      requires base <= |before| && (|before| - base) % 4 == 0 && |id| == 4
      requires start == |before| + 4 + |items| && |before| + SourceBytes(|items|) <= buf.Length
      requires buf[..start] == before + id + items
      modifies buf
      ensures offset == |before| + SourceBytes(|items|)
      ensures buf[..offset] == before + (id + items + Zeros(SourceBytes(|items|) - 4 - |items|))
    {
      hide SourceBytes, Zeros;
      ghost var written := buf[..start];
      EndOfChunk(base, |before|, |items|);
      buf[start] := 0;
      offset := start + 1;
      var r := (offset - base) % 4;
      if r != 0 {
        var num := 4 - r;
        for i := 0 to num
          invariant buf[..start] == written
          invariant forall k :: start <= k < offset + i ==> buf[k] == 0
        {
          buf[offset + i] := 0;
        }
        offset := offset + num;
      }
      ghost var z := Zeros(offset - start);
      assert buf[start..offset] == z;
      assert buf[..offset] == written + z;
      ConcatAssoc(before, id, items);
      ConcatAssoc(before, id + items, z);
    }

    /** One SDES packet with the next up to 31 sources. */
    method PutSdes(buf: array<Byte>, curbuf: nat, it: nat) returns (next: nat, done: nat, entry: Entry)
      requires it < |sdessources|
      requires var n := Min(MAX_COUNT, |sdessources| - it);
               curbuf + |SdesPacket(Sources(sdessources)[it..it + n])| <= buf.Length
      modifies buf
      ensures done == it + Min(MAX_COUNT, |sdessources| - it)
      ensures var p := SdesPacket(Sources(sdessources)[it..done]);
              && next == curbuf + |p| && buf[..next] == old(buf[..curbuf]) + p
              && entry == Entry(SDES, curbuf, |p|)
    {
      hide Header, ChunksOf, SumBytes;
      ghost var before, gap := buf[..curbuf], buf[curbuf..curbuf + COMMON_HEADER];
      assert buf[..curbuf + COMMON_HEADER] == before + gap;
      ghost var group := Sources(sdessources)[it..it + Min(MAX_COUNT, |sdessources| - it)];
      var offset;
      offset, done := PutSources(buf, curbuf, curbuf + COMMON_HEADER, sdessources, it);
      PutHeader(buf, curbuf, SDES, done - it, offset - curbuf, before, gap, ChunksOf(group));
      return offset, done, Entry(SDES, curbuf, offset - curbuf);
    }

    /** The next up to 31 chunks, one behind the other. */
    static method PutSources(buf: array<Byte>, base: nat, start: nat, ss: seq<SDESSource>, it: nat)
      returns (offset: nat, done: nat)
      requires it <= |ss| && base <= start && (start - base) % 4 == 0
      requires start + |ChunksOf(Sources(ss)[it..it + Min(MAX_COUNT, |ss| - it)])| <= buf.Length
      modifies buf
      ensures done == it + Min(MAX_COUNT, |ss| - it)
      ensures offset == start + |ChunksOf(Sources(ss)[it..done])|
      ensures buf[..offset] == old(buf[..start]) + ChunksOf(Sources(ss)[it..done])
    {
      hide ChunkBytes, ChunksOf, SumBytes;
      ghost var before, group := buf[..start], Sources(ss)[it..it + Min(MAX_COUNT, |ss| - it)];
      offset, done := start, it;
      var sourcecount := 0;
      NoChunks();
      while done != |ss| && sourcecount < 31
        invariant it <= done <= |ss| && sourcecount == done - it <= |group|
        invariant offset == start + |ChunksOf(group[..sourcecount])| <= buf.Length
        invariant (offset - base) % 4 == 0
        invariant buf[..offset] == before + ChunksOf(group[..sourcecount])
      {
        ghost var s := ss[done].Abstract();
        assert group[sourcecount] == s;
        ChunksSnoc(group, sourcecount);
        ConcatAssoc(before, ChunksOf(group[..sourcecount]), ChunkBytes(s));
        ChunkAligned(s);
        Multiples4(offset - base, |ChunkBytes(s)|);
        offset := PutSource(buf, base, offset, ss[done]);
        done := done + 1;
        sourcecount := sourcecount + 1;
      }
      assert group[..|group|] == group;
    }

    /** The reports: a do-while loop, since one report is written even without blocks. */
    method PutReports(buf: array<Byte>) returns (curbuf: nat)
      requires |headerdata| >= 4 && rtcppacklist == []
      requires |Flatten(ReportPackets(isSR, headerdata, reportblocks))| <= buf.Length
      modifies buf, this`rtcppacklist
      ensures curbuf <= buf.Length
      ensures Written(buf[..curbuf], rtcppacklist, ReportPackets(isSR, headerdata, reportblocks))
    {
      hide ReportPacket, ReportPackets, Written, Flatten, LeftToReport;
      ghost var all := ReportPackets(isSR, headerdata, reportblocks);
      ghost var ps: seq<seq<Byte>> := [];
      curbuf := 0;
      var firstpacket, done, it := true, false, 0;
      NothingWritten();
      AllLeft(isSR, headerdata, reportblocks);
      while !done
        invariant 0 <= it <= |reportblocks| && (done ==> it == |reportblocks|)
        invariant curbuf <= buf.Length && Written(buf[..curbuf], rtcppacklist, ps)
        invariant all == ps + LeftToReport(done, firstpacket && isSR, headerdata, reportblocks, it)
        decreases |reportblocks| - it, !done
      {
        ghost var n := Min(MAX_COUNT, |reportblocks| - it);
        ghost var p := ReportPacket(firstpacket && isSR, headerdata, reportblocks[it..it + n]);
        NextReport(all, ps, firstpacket && isSR, headerdata, reportblocks, it);
        TypeOfReport(firstpacket && isSR, headerdata, reportblocks[it..it + n]);
        WrittenStep(buf[..curbuf], rtcppacklist, ps, p, all);
        var entry;
        curbuf, it, entry := PutReport(buf, curbuf, firstpacket && isSR, it);
        rtcppacklist := rtcppacklist + [entry];
        ps := ps + [p];
        firstpacket := false;
        if it == |reportblocks| {
          done := true;
        }
      }
      NoneLeft(all, ps, firstpacket && isSR, headerdata, reportblocks);
    }

    /** The SDES packets, if there are sources. */
    method PutSdesPackets(buf: array<Byte>, start: nat, ghost before: seq<seq<Byte>>) returns (curbuf: nat)
      requires start <= buf.Length && Written(buf[..start], rtcppacklist, before)
      requires |Flatten(before + SdesPackets(Sources(sdessources)))| <= buf.Length
      modifies buf, this`rtcppacklist
      ensures curbuf <= buf.Length
      ensures Written(buf[..curbuf], rtcppacklist, before + SdesPackets(Sources(sdessources)))
    {
      hide SdesPacket, Written, Flatten;
      ghost var ss := Sources(sdessources);
      ghost var all, ps := before + SdesPackets(ss), before;
      curbuf := start;
      var it := 0;
      assert ss[0..] == ss;
      while it != |sdessources|
        invariant 0 <= it <= |sdessources|
        invariant curbuf <= buf.Length && Written(buf[..curbuf], rtcppacklist, ps)
        invariant all == ps + SdesPackets(ss[it..])
      {
        ghost var n := Min(MAX_COUNT, |ss| - it);
        ghost var p := SdesPacket(ss[it..it + n]);
        NextSdes(ss, it, ps);
        SdesPacketType(ss[it..it + n]);
        WrittenStep(buf[..curbuf], rtcppacklist, ps, p, all);
        var entry;
        curbuf, it, entry := PutSdes(buf, curbuf, it);
        rtcppacklist := rtcppacklist + [entry];
        ps := ps + [p];
      }
      assert ss[it..] == [] && ps + [] == ps;
    }

    /** APP or BYE packets, already complete. */
    method PutPackets(buf: array<Byte>, start: nat, packets: seq<seq<Byte>>, ptype: Byte, ghost before: seq<seq<Byte>>)
      returns (curbuf: nat)
      requires start <= buf.Length && Written(buf[..start], rtcppacklist, before)
      requires |Flatten(before + packets)| <= buf.Length
      requires OfType(packets, ptype)
      modifies buf, this`rtcppacklist
      ensures curbuf <= buf.Length && Written(buf[..curbuf], rtcppacklist, before + packets)
    {
      hide Flatten, Written;
      ghost var all := before + packets;
      curbuf := start;
      assert before + packets[..0] == before;
      for it := 0 to |packets|
        invariant curbuf <= buf.Length && Written(buf[..curbuf], rtcppacklist, before + packets[..it])
      {
        ghost var ps, p := before + packets[..it], packets[it];
        assert before + packets[..it + 1] == ps + [p];
        WrittenStep(buf[..curbuf], rtcppacklist, ps, p, all);
        rtcppacklist := rtcppacklist + [Entry(ptype, curbuf, |packets[it]|)];
        curbuf := Put(buf, curbuf, packets[it]);
      }
      assert packets[..|packets|] == packets;
    }

    /** EndBuild. An external buffer has maximumpacketsize bytes and nothing checks it again here, so the
        contents have to be within that limit; an internal one is allocated to measure. */
    method EndBuild() returns (r: Result)
      requires Valid() && (arebuilding && external ==> Content().Total() <= maximumpacketsize)
      modifies this, if arebuilding && external then {buffer} else {}
      ensures Valid()
      ensures r == if !old(arebuilding) then NotBuilding
                   else if old(headerdata) == [] then NoReportPresent
                   else DONE_OK
      ensures r != DONE_OK ==> Content() == old(Content()) && arebuilding == old(arebuilding)
      ensures r == DONE_OK ==>
                && !arebuilding && Content() == EMPTY
                && var ps := Packets(old(Content()));
                && compoundpacketlength == |Flatten(ps)| == old(Content().Total())
                && compoundpacket != null && compoundpacketlength <= compoundpacket.Length
                && (old(external) ==> compoundpacket == old(buffer))
                && compoundpacket[..compoundpacketlength] == Flatten(ps) && rtcppacklist == EntriesOf(ps, 0)
    {
      hide Flatten, AllHeaded, AllFit, OfType, ReportPackets, SdesPackets, SdesBytes, ReportBytes, Written;
      hide EntriesOf, Packets, RtcpCompound.Content.Valid;
      if !arebuilding {
        return NotBuilding;
      }
      if |headerdata| == 0 {
        return NoReportPresent;
      }
      ghost var c := Content();
      var sdes := SdesNeeded();
      var len := appsize + byesize + ReportNeeded() + sdes;
      EndSizeExact(c);
      var buf: array<Byte>;
      if !external {
        buf := new Byte[len](_ => 0);
      } else {
        buf := buffer;
      }
      var curbuf := WritePackets(buf);
      WrittenMeans(buf[..curbuf], rtcppacklist, Packets(c));
      compoundpacket, compoundpacketlength := buf, len;
      arebuilding := false;
      ClearBuildBuffers();
      return DONE_OK;
    }

    method ClearBuildBuffers()
      modifies this`isSR, this`headerdata, this`reportblocks, this`sdessources
      modifies this`byepackets, this`byesize, this`apppackets, this`appsize
      ensures Content() == EMPTY && EMPTY.Valid() && sdessources == []
      ensures byesize == |Flatten(byepackets)| && appsize == |Flatten(apppackets)|
    {
      isSR, headerdata, reportblocks, sdessources := false, [], [], [];
      byepackets, byesize, apppackets, appsize := [], 0, [], 0;
      EmptyIsValid();
      assert Content() == EMPTY;
    }

    /** All packets in order: reports, SDES, APP, BYE. */
    method WritePackets(buf: array<Byte>) returns (curbuf: nat)
      requires Valid() && |headerdata| >= 4 && rtcppacklist == [] && |Flatten(Packets(Content()))| <= buf.Length
      modifies buf, this`rtcppacklist
      ensures curbuf <= buf.Length && Written(buf[..curbuf], rtcppacklist, Packets(Content()))
    {
      hide Flatten, ReportPackets, SdesPackets, Written, AllFit;
      ghost var c := Content();
      ghost var reports, sdes := ReportPackets(isSR, headerdata, reportblocks), SdesPackets(c.sources);
      FlattenPart(reports, sdes);
      FlattenPart(reports + sdes, c.apps);
      FlattenPart(reports + sdes + c.apps, c.byes);
      curbuf := PutReports(buf);
      curbuf := PutSdesPackets(buf, curbuf, reports);
      curbuf := PutPackets(buf, curbuf, apppackets, APP, reports + sdes);
      curbuf := PutPackets(buf, curbuf, byepackets, BYE, reports + sdes + c.apps);
    }
  }

  lemma WrittenMeans(prefix: seq<Byte>, entries: seq<Entry>, ps: seq<seq<Byte>>)
    requires Written(prefix, entries, ps)
    ensures prefix == Flatten(ps) && entries == EntriesOf(ps, 0)
  {
  }

  /** A buffer prefix and the packet list describe the packets ps. */
  ghost predicate Written(prefix: seq<Byte>, entries: seq<Entry>, ps: seq<seq<Byte>>) {
    prefix == Flatten(ps) && entries == EntriesOf(ps, 0)
  }

  lemma NothingWritten()
    ensures Written([], [], [])
  {
  }

  /** The next packet of the whole fits, and appending it with its entry keeps the description. */
  lemma WrittenStep(prefix: seq<Byte>, entries: seq<Entry>, ps: seq<seq<Byte>>, p: seq<Byte>, all: seq<seq<Byte>>)
    requires Written(prefix, entries, ps) && |p| > 1
    requires |ps| < |all| && all[..|ps|] == ps && all[|ps|] == p
    ensures |prefix| + |p| <= |Flatten(all)|
    ensures Written(prefix + p, entries + [Entry(p[1], |prefix|, |p|)], ps + [p])
  {
    hide Flatten, EntriesOf;
    NextFits(all, ps, p);
    EntriesSnoc(ps, p);
  }

  lemma FlattenPart(a: seq<seq<Byte>>, b: seq<seq<Byte>>)
    ensures |Flatten(a)| <= |Flatten(a + b)|
  {
    FlattenConcat(a, b);
  }

  /** The next packet of the whole fits behind the previous ones. */
  lemma NextFits(all: seq<seq<Byte>>, ps: seq<seq<Byte>>, p: seq<Byte>)
    requires |ps| < |all| && all[..|ps|] == ps && all[|ps|] == p
    ensures Flatten(ps + [p]) == Flatten(ps) + p && |Flatten(ps)| + |p| <= |Flatten(all)|
  {
    hide Flatten;
    SnocFlatten(ps, p);
    assert all == (ps + [p]) + all[|ps| + 1..];
    FlattenPart(ps + [p], all[|ps| + 1..]);
  }

  lemma {:induction false} EntriesConcat(ps: seq<seq<Byte>>, qs: seq<seq<Byte>>, at: nat)
    ensures EntriesOf(ps + qs, at) == EntriesOf(ps, at) + EntriesOf(qs, at + |Flatten(ps)|)
    decreases |ps|
  {
    if ps == [] {
      assert ps + qs == qs;
    } else {
      EntriesConcat(ps[1..], qs, at + |ps[0]|);
      assert (ps + qs)[1..] == ps[1..] + qs;
    }
  }

  lemma EntriesSnoc(ps: seq<seq<Byte>>, p: seq<Byte>)
    requires |p| > 1
    ensures EntriesOf(ps + [p], 0) == EntriesOf(ps, 0) + [Entry(p[1], |Flatten(ps)|, |p|)]
  {
    EntriesConcat(ps, [p], 0);
    assert [p][1..] == [];
  }

  /** The reports not yet written. */
  ghost function LeftToReport(done: bool, asSR: bool, headerdata: seq<Byte>, blocks: seq<seq<Byte>>, it: nat)
    : seq<seq<Byte>>
    requires |headerdata| >= 4 && it <= |blocks|
  {
    if done then [] else ReportPackets(asSR, headerdata, blocks[it..])
  }

  lemma AllLeft(asSR: bool, headerdata: seq<Byte>, blocks: seq<seq<Byte>>)
    requires |headerdata| >= 4
    ensures ReportPackets(asSR, headerdata, blocks) == [] + LeftToReport(false, asSR, headerdata, blocks, 0)
  {
    assert blocks[0..] == blocks;
  }

  lemma NoneLeft(all: seq<seq<Byte>>, ps: seq<seq<Byte>>, asSR: bool, headerdata: seq<Byte>, blocks: seq<seq<Byte>>)
    requires |headerdata| >= 4 && all == ps + LeftToReport(true, asSR, headerdata, blocks, |blocks|)
    ensures all == ps
  {
  }

  lemma NextReport(all: seq<seq<Byte>>, ps: seq<seq<Byte>>, asSR: bool, headerdata: seq<Byte>,
                   blocks: seq<seq<Byte>>, it: nat)
    requires |headerdata| >= 4 && it <= |blocks| && all == ps + LeftToReport(false, asSR, headerdata, blocks, it)
    ensures var n := Min(MAX_COUNT, |blocks| - it);
            var p := ReportPacket(asSR, headerdata, blocks[it..it + n]);
            && |ps| < |all| && all[..|ps|] == ps && all[|ps|] == p
            && all == ps + [p] + LeftToReport(it + n == |blocks|, false, headerdata, blocks, it + n)
  {
    hide ReportPacket;
    var n := Min(MAX_COUNT, |blocks| - it);
    assert blocks[it..][..n] == blocks[it..it + n] && blocks[it..][n..] == blocks[it + n..];
  }

  lemma NextSdes(ss: seq<Source>, it: nat, ps: seq<seq<Byte>>)
    requires it < |ss|
    ensures var n := Min(MAX_COUNT, |ss| - it);
            ps + SdesPackets(ss[it..]) == ps + [SdesPacket(ss[it..it + n])] + SdesPackets(ss[it + n..])
  {
    hide SdesPacket;
    var n := Min(MAX_COUNT, |ss| - it);
    assert ss[it..][..n] == ss[it..it + n] && ss[it..][n..] == ss[it + n..];
  }

  lemma TypeOfReport(asSR: bool, headerdata: seq<Byte>, blocks: seq<seq<Byte>>)
    requires |blocks| <= MAX_COUNT && |headerdata| >= 4
    ensures var p := ReportPacket(asSR, headerdata, blocks); |p| > 1 && p[1] == if asSR then SR else RR
  {
  }

  lemma SdesPacketType(ss: seq<Source>)
    requires |ss| <= MAX_COUNT
    ensures var p := SdesPacket(ss); |p| > 1 && p[1] == SDES
  {
  }

  lemma NoChunks()
    ensures ChunksOf([]) == []
  {
  }

  /** Where a chunk ends: one end marker, then up to the next multiple of four from the packet's start. */
  lemma EndOfChunk(base: nat, start: nat, itemBytes: nat)
    requires base <= start && (start - base) % 4 == 0
    ensures var offset := start + 4 + itemBytes + 1;
            var r := (offset - base) % 4;
            (if r != 0 then offset + (4 - r) else offset) == start + SourceBytes(itemBytes)
  {
    var q := (start - base) / 4;
    assert start - base == 4 * q;
  }

  lemma ChunkAligned(s: Source)
    ensures |ChunkBytes(s)| % 4 == 0
  {
  }

  lemma {:induction false} ChunksConcat(a: seq<Source>, b: seq<Source>)
    ensures ChunksOf(a + b) == ChunksOf(a) + ChunksOf(b)
    decreases |a|
  {
    hide ChunkBytes;
    if a == [] {
      assert a + b == b;
    } else {
      ChunksConcat(a[1..], b);
      assert (a + b)[1..] == a[1..] + b;
      ConcatAssoc(ChunkBytes(a[0]), ChunksOf(a[1..]), ChunksOf(b));
    }
  }

  lemma ChunksSnoc(ss: seq<Source>, n: nat)
    requires n < |ss|
    ensures ChunksOf(ss[..n + 1]) == ChunksOf(ss[..n]) + ChunkBytes(ss[n])
    ensures |ChunksOf(ss[..n + 1])| <= |ChunksOf(ss)|
  {
    hide ChunkBytes;
    assert ss[..n + 1] == ss[..n] + [ss[n]];
    ChunksConcat(ss[..n], [ss[n]]);
    assert [ss[n]][1..] == [];
    assert ss == ss[..n + 1] + ss[n + 1..];
    ChunksConcat(ss[..n + 1], ss[n + 1..]);
  }

  lemma FillGap(s: seq<Byte>, before: seq<Byte>, gap: seq<Byte>, body: seq<Byte>, h: seq<Byte>)
    requires |h| == |gap| && |before| + |gap| + |body| <= |s|
    requires s[..|before| + |gap| + |body|] == before + gap + body
    ensures Splice(s, |before|, h)[..|before| + |gap| + |body|] == before + (h + body)
  {
    var n := |before| + |gap| + |body|;
    var t := s[..n];
    assert s[..|before|] == t[..|before|] == before;
    assert s[|before| + |h|..n] == t[|before| + |gap|..] == body;
  }

  lemma FlattenPrefix(ps: seq<seq<Byte>>, n: nat)
    requires n <= |ps|
    ensures |Flatten(ps[..n])| <= |Flatten(ps)|
  {
    assert ps == ps[..n] + ps[n..];
    FlattenConcat(ps[..n], ps[n..]);
  }
}
