/** How rtcppacketbuilder.cpp drives the compound builder: every packet starts with a report, the own source
    and its CNAME, and a BYE packet adds the BYE. What the source table contributes is an argument. */
module RtcpPacketBuilder {
  import opened Bytes
  import opened RtcpFormat
  import opened RtcpLayout
  import opened RtcpRoundTrip
  import opened RtcpCompound
  import opened RtcpBuilder

  const CNAME: Byte := 1

  function Min255(reason: seq<Byte>): (r: seq<Byte>)
    ensures |r| <= 255
  {
    if |reason| > 255 then reason[..255] else reason
  }

  /** The contents after the opening calls. */
  function Opening(sr: bool, ssrc: U32, info: seq<Byte>, cname: seq<Byte>): Content
    requires |cname| <= 255
  {
    var headerdata := if sr then Be32(ssrc) + info else Be32(ssrc);
    Content(Report(sr, headerdata, []), [Source(ssrc, [[CNAME, |cname|] + cname])], [], [])
  }

  function StartCall(sr: bool, ssrc: U32, info: seq<Byte>): Call {
    if sr then StartSenderReport(ssrc, info) else StartReceiverReport(ssrc)
  }

  lemma OneSource(s: Source)
    ensures SumBytes([s]) == SourceBytes(s.ItemBytes()) && SdesBytes([s]) == SourceBytes(s.ItemBytes()) + 4
  {
    assert [s][1..] == [];
    assert SumBytes([]) == 0;
  }

  lemma OneItem(item: seq<Byte>)
    ensures Flatten([item]) == item
  {
    assert [item][1..] == [];
    assert item + [] == item;
  }

  lemma OpeningTotal(sr: bool, ssrc: U32, info: seq<Byte>, cname: seq<Byte>)
    requires |info| == SENDER_REPORT && |cname| <= 255
    ensures Opening(sr, ssrc, info, cname).Total() <= 296
    ensures Opening(sr, ssrc, info, cname).WithoutReport() <= 268
  {
    hide Be32, SumBytes;
    var item := [CNAME, |cname|] + cname;
    OneItem(item);
    OneSource(Source(ssrc, [item]));
  }

  lemma StartFits(sr: bool, ssrc: U32, info: seq<Byte>, max: nat)
    requires RTP_MINPACKETSIZE <= max < SIZE_T && |info| == SENDER_REPORT
    ensures var h := if sr then Be32(ssrc) + info else Be32(ssrc);
            WellTyped(StartCall(sr, ssrc, info))
            && Perform(EMPTY, max, StartCall(sr, ssrc, info)) == (Content(Report(sr, h, []), [], [], []), Ok)
  {
    hide Be32;
    EmptyIsValid();
  }

  lemma SourceFits(sr: bool, h: seq<Byte>, ssrc: U32, max: nat)
    requires RTP_MINPACKETSIZE <= max && |h| == if sr then 4 + SENDER_REPORT else 4
    ensures Perform(Content(Report(sr, h, []), [], [], []), max, AddSDESSource(ssrc))
            == (Content(Report(sr, h, []), [Source(ssrc, [])], [], []), Ok)
  {
    assert Flatten([]) == [];
    assert [] + [Source(ssrc, [])] == [Source(ssrc, [])];
  }

  lemma CnameFits(sr: bool, h: seq<Byte>, ssrc: U32, cname: seq<Byte>, max: nat)
    requires RTP_MINPACKETSIZE <= max && |h| == (if sr then 4 + SENDER_REPORT else 4) && |cname| <= 255
    ensures Perform(Content(Report(sr, h, []), [Source(ssrc, [])], [], []), max, AddSDESNormalItem(CNAME, cname))
            == (Content(Report(sr, h, []), [Source(ssrc, [[CNAME, |cname|] + cname])], [], []), Ok)
  {
    var s := Source(ssrc, []);
    var item := [CNAME, |cname|] + cname;
    assert Flatten([]) == [];
    assert [s][..0] == [] && SumBytes([]) == 0;
    assert s.items + [item] == [item];
    assert [s][..0] + [s.(items := [item])] == [Source(ssrc, [item])];
  }

  /** The opening calls never find the packet full: the smallest packet allowed has room for them, whatever the
      CNAME. */
  lemma OpeningFits(sr: bool, ssrc: U32, info: seq<Byte>, cname: seq<Byte>, max: nat)
    requires RTP_MINPACKETSIZE <= max < SIZE_T && |info| == SENDER_REPORT && |cname| <= 255
    ensures WellTyped(StartCall(sr, ssrc, info))
    ensures var (c1, s1) := Perform(EMPTY, max, StartCall(sr, ssrc, info));
            var (c2, s2) := Perform(c1, max, AddSDESSource(ssrc));
            var (c3, s3) := Perform(c2, max, AddSDESNormalItem(CNAME, cname));
            s1 == s2 == s3 == Ok && c3 == Opening(sr, ssrc, info, cname)
  {
    hide Perform, Be32;
    var h := if sr then Be32(ssrc) + info else Be32(ssrc);
    StartFits(sr, ssrc, info, max);
    SourceFits(sr, h, ssrc, max);
    CnameFits(sr, h, ssrc, cname, max);
  }

  /** Nor does the first report block: BuildNextPacket cannot report a packet filled too soon. */
  lemma FirstBlockFits(sr: bool, ssrc: U32, info: seq<Byte>, cname: seq<Byte>, block: seq<Byte>, max: nat)
    requires RTP_MINPACKETSIZE <= max && |info| == SENDER_REPORT && |cname| <= 255 && |block| == RECEIVER_REPORT
    ensures Perform(Opening(sr, ssrc, info, cname), max, AddReportBlock(block)).1 == Ok
  {
    hide Flatten, SdesBytes, Be32;
    OpeningTotal(sr, ssrc, info, cname);
    assert Opening(sr, ssrc, info, cname).report.headerdata != [];
  }

  function WithBye(c: Content, ssrc: U32, reason: seq<Byte>): Content
    requires |reason| <= 255
  {
    c.(byes := [ByePacket([ssrc], reason)])
  }

  /** Nor does the BYE, with a reason of any length the protocol allows. */
  lemma ByeFits(sr: bool, ssrc: U32, info: seq<Byte>, cname: seq<Byte>, reason: seq<Byte>, max: nat)
    requires RTP_MINPACKETSIZE <= max && |info| == SENDER_REPORT && |cname| <= 255 && |reason| <= 255
    ensures var c := Opening(sr, ssrc, info, cname);
            && Perform(c, max, AddBYEPacket([ssrc], reason)) == (WithBye(c, ssrc, reason), Ok)
            && WithBye(c, ssrc, reason).Total() <= 560
  {
    hide SdesBytes, ReportBytes, ByePacket, Be32;
    var c := Opening(sr, ssrc, info, cname);
    OpeningTotal(sr, ssrc, info, cname);
    assert [] + [ByePacket([ssrc], reason)] == [ByePacket([ssrc], reason)];
    OneItem(ByePacket([ssrc], reason));
    assert ByeSize(1, |reason|) <= 264;
    assert Flatten([]) == [];
  }

  lemma OneReport(sr: bool, h: seq<Byte>)
    requires |h| >= 4
    ensures var ps := ReportPackets(sr, h, []); |ps| == 1 && |ps[0]| > 1 && ps[0][1] == if sr then SR else RR
  {
    hide ReportPacket;
    var none: seq<seq<Byte>> := [];
    assert none[..0] == none;
    TypeOfReport(sr, h);
  }

  lemma TypeOfReport(sr: bool, h: seq<Byte>)
    requires |h| >= 4
    ensures var p := ReportPacket(sr, h, []); |p| > 1 && p[1] == if sr then SR else RR
  {
  }

  lemma OneSdes(s: Source)
    ensures var ps := SdesPackets([s]); |ps| == 1 && |ps[0]| > 1 && ps[0][1] == SDES
  {
    hide ChunkBytes;
    assert [s][..1] == [s];
  }

  lemma TypeOfBye(ssrc: U32, reason: seq<Byte>)
    requires |reason| <= 255
    ensures var p := ByePacket([ssrc], reason); |p| > 1 && p[1] == BYE
  {
    hide Be32All;
  }

  /** The packets of a BYE compound: one report, one SDES, one BYE. */
  lemma ByePackets(sr: bool, ssrc: U32, info: seq<Byte>, cname: seq<Byte>, reason: seq<Byte>)
    requires |info| == SENDER_REPORT && |cname| <= 255 && |reason| <= 255
    ensures var c := WithBye(Opening(sr, ssrc, info, cname), ssrc, reason);
            && |c.report.headerdata| >= 4
            && var ps := Packets(c);
            && |ps| == 3 && |ps[0]| > 1 && |ps[1]| > 1 && |ps[2]| > 1
            && ps[0][1] == (if sr then SR else RR) && ps[1][1] == SDES && ps[2][1] == BYE
  {
    hide Be32, ReportPackets, SdesPackets, ByePacket;
    var c := WithBye(Opening(sr, ssrc, info, cname), ssrc, reason);
    OneReport(sr, c.report.headerdata);
    OneSdes(c.sources[0]);
    TypeOfBye(ssrc, reason);
  }

  lemma {:induction false} EntryType(ps: seq<seq<Byte>>, at: nat, i: nat)
    requires i < |ps| && |ps[i]| > 1
    ensures EntriesOf(ps, at)[i].ptype == ps[i][1]
    decreases i
  {
    if i > 0 {
      EntryType(ps[1..], at + |ps[0]|, i - 1);
    }
  }

  /** What the receiver finds in a BYE compound. */
  lemma ByeParses(sr: bool, ssrc: U32, info: seq<Byte>, cname: seq<Byte>, reason: seq<Byte>)
    requires |info| == SENDER_REPORT && |cname| <= 255 && |reason| <= 255
    requires WithBye(Opening(sr, ssrc, info, cname), ssrc, reason).Valid()
    ensures var c := WithBye(Opening(sr, ssrc, info, cname), ssrc, reason);
            && c.report.headerdata != []
            && var entries := EntriesOf(Packets(c), 0);
            && Parse(Flatten(Packets(c))) == Some(entries) && AllKnown(Packets(c))
            && |entries| == 3 && entries[0].ptype == (if sr then SR else RR)
            && entries[1].ptype == SDES && entries[2].ptype == BYE
  {
    hide Packets, AllKnown, Parse, Flatten, ByePacket, Opening, EntriesOf;
    var c := WithBye(Opening(sr, ssrc, info, cname), ssrc, reason);
    ByePackets(sr, ssrc, info, cname, reason);
    EntryType(Packets(c), 0, 0);
    EntryType(Packets(c), 0, 1);
    EntryType(Packets(c), 0, 2);
    ByeFits(sr, ssrc, info, cname, reason, RTP_MINPACKETSIZE);
    EndSizeExact(c);
    SdesPacketsExact(c.sources);
    SmallPacketsFit(SdesPackets(c.sources));
    CompoundRoundTrip(c);
  }

  method Begin(pack: RTCPCompoundPacketBuilder, sr: bool, ssrc: U32, info: seq<Byte>, cname: seq<Byte>)
    returns (status: Result)
    requires pack.Valid() && pack.arebuilding && pack.Content() == EMPTY
    requires |info| == SENDER_REPORT && |cname| <= 255
    modifies pack
    ensures pack.Valid() && pack.arebuilding && status == DONE_OK
    ensures pack.Content() == Opening(sr, ssrc, info, cname)
    ensures pack.external == old(pack.external) && pack.maximumpacketsize == old(pack.maximumpacketsize)
  {
    hide Perform, Opening, RtcpCompound.Content.Valid;
    OpeningFits(sr, ssrc, info, cname, pack.maximumpacketsize);
    status := pack.StartReport(sr, ssrc, info);
    if status != DONE_OK {
      return;
    }
    status := pack.AddSDESSource(ssrc);
    if status != DONE_OK {
      return;
    }
    status := pack.AddSDESNormalItem(CNAME, cname);
  }

  /** The contents of a BYE compound, the reason cut at 255 bytes. */
  function ByeContent(sr: bool, ssrc: U32, info: seq<Byte>, cname: seq<Byte>, reason: seq<Byte>): (c: Content)
    requires |info| == SENDER_REPORT && |cname| <= 255
    ensures |c.report.headerdata| >= 4
  {
    WithBye(Opening(sr, ssrc, info, cname), ssrc, Min255(reason))
  }

  /** BuildBYEPacket. From the smallest packet size on it always succeeds, stays within the size, writes the
      packets of those contents, and the receiver's parser finds a report, an SDES and a BYE packet. */
  method BuildBYEPacket(maxpacketsize: nat, sr: bool, ssrc: U32, info: seq<Byte>, cname: seq<Byte>, reason: seq<Byte>)
    returns (status: Result, pack: RTCPCompoundPacketBuilder)
    requires maxpacketsize < SIZE_T && |info| == SENDER_REPORT && |cname| <= 255
    ensures status == if maxpacketsize < RTP_MINPACKETSIZE then SizeTooSmall else DONE_OK
    ensures fresh(pack) && pack.Valid()
    ensures status == DONE_OK ==>
              && pack.compoundpacket != null && pack.compoundpacketlength <= maxpacketsize
              && pack.compoundpacketlength <= pack.compoundpacket.Length
              && pack.compoundpacket[..pack.compoundpacketlength]
                 == Flatten(Packets(ByeContent(sr, ssrc, info, cname, reason)))
              && Parse(pack.compoundpacket[..pack.compoundpacketlength]) == Some(pack.rtcppacklist)
              && |pack.rtcppacklist| == 3 && pack.rtcppacklist[0].ptype == (if sr then SR else RR)
              && pack.rtcppacklist[1].ptype == SDES && pack.rtcppacklist[2].ptype == BYE
  {
    hide Perform, Opening, RtcpCompound.Content.Valid, Parse, EntriesOf, Packets, Flatten;
    var short := Min255(reason);
    pack := new RTCPCompoundPacketBuilder();
    assert pack.Content() == EMPTY;
    status := pack.InitBuild(maxpacketsize, null);
    if status != DONE_OK {
      return;
    }
    status := Begin(pack, sr, ssrc, info, cname);
    ByeFits(sr, ssrc, info, cname, short, maxpacketsize);
    status := pack.AddBYEPacket([ssrc], short);
    ByeParses(sr, ssrc, info, cname, short);
    status := pack.EndBuild();
  }
}
