/** The compound packet builder on values: what each call does to its contents, the size invariant, and
    the round trip of the finished packet. */
module RtcpCompound {
  import opened Bytes
  import opened RtcpFormat
  import opened RtcpLayout
  import opened RtcpRoundTrip

  const SIZE_T: int := 0x1_0000_0000_0000_0000
  const RTP_MINPACKETSIZE := 600

  predicate OfType(ps: seq<seq<Byte>>, ptype: Byte) {
    forall i :: 0 <= i < |ps| ==> |ps[i]| > 1 && ps[i][1] == ptype
  }

  /** Reports, SDES chunks, and the finished APP and BYE packets waiting to be appended. */
  datatype Content = Content(report: Report, sources: seq<Source>, apps: seq<seq<Byte>>, byes: seq<seq<Byte>>) {
    ghost predicate Valid() {
      && report.Valid() && ValidSources(sources)
      && AllHeaded(apps) && AllKnown(apps) && AllFit(apps) && OfType(apps, APP)
      && AllHeaded(byes) && AllKnown(byes) && AllFit(byes) && OfType(byes, BYE)
    }

    /** appsize + byesize + report.NeededBytes() + sdes.NeededBytes() */
    function Total(): nat {
      |Flatten(apps)| + |Flatten(byes)| + ReportBytes(report) + SdesBytes(sources)
    }

    /** Everything but the report. */
    function WithoutReport(): nat {
      |Flatten(byes)| + |Flatten(apps)| + SdesBytes(sources)
    }

    /** Everything but the SDES chunks. */
    function WithoutSdes(): nat {
      |Flatten(byes)| + |Flatten(apps)| + ReportBytes(report)
    }
  }

  const EMPTY := Content(Report(false, [], []), [], [], [])

  // ---------- the finished packets of AddAPPPacket and AddBYEPacket ----------

  function AppPacket(subtype: nat, ssrc: U32, name: seq<Byte>, data: seq<Byte>): (p: seq<Byte>)
    requires subtype <= MAX_COUNT && |name| == 4
    ensures |p| == COMMON_HEADER + 8 + |data|
  {
    Header(APP, subtype, COMMON_HEADER + 8 + |data|) + Be32(ssrc) + name + data
  }

  /** Length of a BYE packet: header, sources, and the padded reason if there is one. */
  function ByeSize(n: nat, reasonLength: nat): (r: nat)
    ensures r % 4 == 0 && r >= COMMON_HEADER + 4 * n
    ensures reasonLength > 0 ==> r >= COMMON_HEADER + 4 * n + 1 + reasonLength
  {
    var size := COMMON_HEADER + 4 * n;
    if reasonLength == 0 then size
    else
      var x, rem := size + 1 + reasonLength, (size + 1 + reasonLength) % 4;
      if rem != 0 then x + (4 - rem) else x
  }

  function ByePacket(ssrcs: seq<U32>, reason: seq<Byte>): (p: seq<Byte>)
    requires |ssrcs| <= MAX_COUNT && |reason| <= 255
    ensures |p| == ByeSize(|ssrcs|, |reason|)
  {
    var size := ByeSize(|ssrcs|, |reason|);
    Header(BYE, |ssrcs|, size) + Be32All(ssrcs)
    + (if reason == [] then []
       else [|reason|] + reason + Zeros(size - COMMON_HEADER - 4 * |ssrcs| - 1 - |reason|))
  }

  lemma AppPacketKnown(subtype: nat, ssrc: U32, name: seq<Byte>, data: seq<Byte>)
    requires subtype <= MAX_COUNT && |name| == 4 && |data| % 4 == 0 && |data| / 4 + 2 <= 65535
    ensures var p := AppPacket(subtype, ssrc, name, data);
            Headed(p, APP, subtype) && Known(p) && |p| <= MAX_PACKET
  {
    hide Header, Be32;
    var p := AppPacket(subtype, ssrc, name, data);
    assert p[..COMMON_HEADER] == Header(APP, subtype, |p|);
    HeaderTellsTruth(p, APP, subtype);
    NotPadded(p);
  }

  lemma ByePacketKnown(ssrcs: seq<U32>, reason: seq<Byte>)
    requires |ssrcs| <= MAX_COUNT && |reason| <= 255
    ensures var p := ByePacket(ssrcs, reason);
            Headed(p, BYE, |ssrcs|) && Known(p) && |p| <= MAX_PACKET
  {
    hide Header, Be32All;
    var p := ByePacket(ssrcs, reason);
    assert p[..COMMON_HEADER] == Header(BYE, |ssrcs|, |p|);
    HeaderTellsTruth(p, BYE, |ssrcs|);
    NotPadded(p);
    if reason != [] {
      assert p[COMMON_HEADER + 4 * |ssrcs|] == |reason|;
    }
  }

  // ---------- the calls ----------

  datatype Status = Ok | AlreadyGotReport | NotEnoughBytesLeft | ReportNotStarted | NoCurrentSource
                  | InvalidItemType | TotalItemLengthTooBig | TooManySsrcs | IllegalSubtype | IllegalAppDataLength
                  | AppDataLenTooBig

  /** The builder's calls between InitBuild and EndBuild, their arguments already in network order. */
  datatype Call =
    | StartSenderReport(ssrc: U32, senderInfo: seq<Byte>)
    | StartReceiverReport(ssrc: U32)
    | AddReportBlock(block: seq<Byte>)
    | AddSDESSource(ssrc: U32)
    | AddSDESNormalItem(id: Byte, value: seq<Byte>)
    | AddSDESPrivateItem(prefix: seq<Byte>, value: seq<Byte>)
    | AddBYEPacket(ssrcs: seq<U32>, reason: seq<Byte>)
    | AddAPPPacket(subtype: Byte, ssrc: U32, name: seq<Byte>, data: seq<Byte>)

  /** The SDES item types of the enumeration, CNAME to NOTE; its other members are neither. */
  predicate IsNormalItem(id: Byte) {
    1 <= id <= 7
  }

  const PRIVATE: Byte := 8

  /** Argument widths the C++ types guarantee. */
  predicate WellTyped(call: Call) {
    match call
    case StartSenderReport(_, info) => |info| == SENDER_REPORT
    case AddReportBlock(block) => |block| == RECEIVER_REPORT
    case AddSDESNormalItem(_, value) => |value| <= 255
    case AddSDESPrivateItem(prefix, value) => |prefix| <= 255 && |value| <= 255
    case AddBYEPacket(ssrcs, reason) => |ssrcs| <= 255 && |reason| <= 255
    case AddAPPPacket(_, _, name, _) => |name| == 4
    case _ => true
  }

  /** neededsize > maximumpacketsize - totalsize, computed in size_t. */
  predicate TooBigFor(needed: nat, max: nat, total: nat) {
    needed > (max - total) % SIZE_T
  }

  /** Appends an item to the current (last) source. */
  function WithItem(c: Content, item: seq<Byte>): Content
    requires c.sources != []
  {
    var last := |c.sources| - 1;
    var s := c.sources[last];
    c.(sources := c.sources[..last] + [s.(items := s.items + [item])])
  }

  /** Adds an item of this value length if there is a source and room. */
  function AddItem(c: Content, max: nat, id: Byte, value: seq<Byte>): (Content, Status)
    requires |value| <= 255
  {
    if c.sources == [] then (c, NoCurrentSource)
    else if SdesBytesWithItem(c.sources, |value|) + c.WithoutSdes() > max then (c, NotEnoughBytesLeft)
    else (WithItem(c, [id, |value|] + value), Ok)
  }

  /** The effect of one call on the contents, and its status. */
  function Perform(c: Content, max: nat, call: Call): (Content, Status)
    requires WellTyped(call)
  {
    match call
    case StartSenderReport(ssrc, info) =>
      if c.report.headerdata != [] then (c, AlreadyGotReport)
      else if TooBigFor(COMMON_HEADER + 4 + SENDER_REPORT, max, c.WithoutReport()) then (c, NotEnoughBytesLeft)
      else (c.(report := c.report.(isSR := true, headerdata := Be32(ssrc) + info)), Ok)
    case StartReceiverReport(ssrc) =>
      if c.report.headerdata != [] then (c, AlreadyGotReport)
      else if TooBigFor(COMMON_HEADER + 4, max, c.WithoutReport()) then (c, NotEnoughBytesLeft)
      else (c.(report := c.report.(isSR := false, headerdata := Be32(ssrc))), Ok)
    case AddReportBlock(block) =>
      if c.report.headerdata == [] then (c, ReportNotStarted)
      else if c.WithoutReport() + ReportBytesWithBlock(c.report) > max then (c, NotEnoughBytesLeft)
      else (c.(report := c.report.(blocks := c.report.blocks + [block])), Ok)
    case AddSDESSource(ssrc) =>
      if c.WithoutSdes() + SdesBytesWithSource(c.sources) > max then (c, NotEnoughBytesLeft)
      else (c.(sources := c.sources + [Source(ssrc, [])]), Ok)
    case AddSDESNormalItem(id, value) =>
      if c.sources == [] then (c, NoCurrentSource)
      else if !IsNormalItem(id) then (c, InvalidItemType)
      else AddItem(c, max, id, value)
    case AddSDESPrivateItem(prefix, value) =>
      if c.sources == [] then (c, NoCurrentSource)
      else if |prefix| + 1 + |value| > 255 then (c, TotalItemLengthTooBig)
      else AddItem(c, max, PRIVATE, [|prefix|] + prefix + value)
    case AddBYEPacket(ssrcs, reason) =>
      if |ssrcs| > MAX_COUNT then (c, TooManySsrcs)
      else if c.Total() + ByeSize(|ssrcs|, |reason|) > max then (c, NotEnoughBytesLeft)
      else (c.(byes := c.byes + [ByePacket(ssrcs, reason)]), Ok)
    case AddAPPPacket(subtype, ssrc, name, data) =>
      if subtype > MAX_COUNT then (c, IllegalSubtype)
      else if |data| % 4 != 0 then (c, IllegalAppDataLength)
      else if |data| / 4 + 2 > 65535 then (c, AppDataLenTooBig)
      else if c.Total() + (COMMON_HEADER + 8 + |data|) > max then (c, NotEnoughBytesLeft)
      else (c.(apps := c.apps + [AppPacket(subtype, ssrc, name, data)]), Ok)
  }

  // ---------- every call keeps the contents well-formed ----------

  lemma {:induction false} SnocFlatten(ps: seq<seq<Byte>>, p: seq<Byte>)
    ensures Flatten(ps + [p]) == Flatten(ps) + p
  {
    FlattenConcat(ps, [p]);
    assert Flatten([p]) == p + Flatten([p][1..]) == p;
  }

  lemma SnocPackets(ps: seq<seq<Byte>>, p: seq<Byte>, ptype: Byte, count: nat)
    requires AllHeaded(ps) && AllKnown(ps) && AllFit(ps) && OfType(ps, ptype)
    requires Headed(p, ptype, count) && Known(p) && |p| <= MAX_PACKET
    ensures AllHeaded(ps + [p]) && AllKnown(ps + [p]) && AllFit(ps + [p]) && OfType(ps + [p], ptype)
    ensures |Flatten(ps + [p])| == |Flatten(ps)| + |p|
  {
    hide Headed, Known, Flatten;
    assert SomeHeader(p);
    LongEnough(p, ptype, count);
    HeaderTellsTruth(p, ptype, count);
    assert [p][1..] == [];
    HeadedConcat(ps, [p]);
    KnownConcat(ps, [p]);
    FitConcat(ps, [p]);
    SnocFlatten(ps, p);
  }

  lemma {:induction false} FitConcat(ps: seq<seq<Byte>>, qs: seq<seq<Byte>>)
    ensures AllFit(ps + qs) <==> AllFit(ps) && AllFit(qs)
    decreases |ps|
  {
    if ps == [] {
      assert ps + qs == qs;
    } else {
      FitConcat(ps[1..], qs);
      assert (ps + qs)[1..] == ps[1..] + qs;
    }
  }

  lemma ItemAdded(c: Content, item: seq<Byte>)
    requires c.Valid() && c.sources != [] && ValidItem(item)
    ensures WithItem(c, item).Valid()
    ensures SdesBytes(WithItem(c, item).sources) == SdesBytesWithItem(c.sources, |item| - SDES_HEADER)
  {
    hide Flatten, SourceBytes, Groups, ValidItem, AllHeaded, AllKnown, AllFit, OfType;
    var last := |c.sources| - 1;
    var s := c.sources[last];
    var s' := s.(items := s.items + [item]);
    SnocFlatten(s.items, item);
    assert s.Valid() && s'.Valid();
    SumConcat(c.sources[..last], [s']);
    assert [s'][1..] == [];
  }

  lemma SourceAdded(c: Content, ssrc: U32)
    requires c.Valid()
    ensures var s := Source(ssrc, []);
            && ValidSources(c.sources + [s])
            && SdesBytes(c.sources + [s]) == if c.sources == [] then 12 else SdesBytesWithSource(c.sources)
  {
    hide Groups;
    var s := Source(ssrc, []);
    SumConcat(c.sources, [s]);
    assert [s][1..] == [] && s.ItemBytes() == 0;
    GroupsStep(1);
  }

  /** The size a call checks is the size its success leads to, except that the first SDES source is taken
      to cost nothing while it costs twelve bytes. */
  lemma PredictionIsActual(c: Content, max: nat, call: Call)
    requires c.Valid() && WellTyped(call) && Perform(c, max, call).1 == Ok
    ensures var c' := Perform(c, max, call).0;
            && c'.Valid()
            && match call
               case StartSenderReport(_, _) => c'.Total() == c.Total() + COMMON_HEADER + 4 + SENDER_REPORT
               case StartReceiverReport(_) => c'.Total() == c.Total() + COMMON_HEADER + 4
               case AddReportBlock(_) => c'.Total() == c.WithoutReport() + ReportBytesWithBlock(c.report)
               case AddSDESSource(_) =>
                 c'.Total() == c.WithoutSdes() + (if c.sources == [] then 12 else SdesBytesWithSource(c.sources))
               case AddSDESNormalItem(_, value) =>
                 c'.Total() == c.WithoutSdes() + SdesBytesWithItem(c.sources, |value|)
               case AddSDESPrivateItem(prefix, value) =>
                 c'.Total() == c.WithoutSdes() + SdesBytesWithItem(c.sources, |prefix| + 1 + |value|)
               case AddBYEPacket(ssrcs, reason) => c'.Total() == c.Total() + ByeSize(|ssrcs|, |reason|)
               case AddAPPPacket(_, _, _, data) => c'.Total() == c.Total() + COMMON_HEADER + 8 + |data|
  {
    hide Flatten, AllHeaded, AllKnown, AllFit, OfType, Headed, Known, SdesBytes, SdesBytesWithItem, SdesBytesWithSource;
    hide ByeSize, ByePacket, AppPacket, Be32, TooBigFor;
    match call
    case AddSDESSource(ssrc) => SourceAdded(c, ssrc);
    case AddSDESNormalItem(id, value) => ItemAdded(c, [id, |value|] + value);
    case AddSDESPrivateItem(prefix, value) =>
      var v := [|prefix|] + prefix + value;
      ItemAdded(c, [PRIVATE, |v|] + v);
    case AddBYEPacket(ssrcs, reason) =>
      ByePacketKnown(ssrcs, reason);
      SnocPackets(c.byes, ByePacket(ssrcs, reason), BYE, |ssrcs|);
    case AddAPPPacket(subtype, ssrc, name, data) =>
      AppPacketKnown(subtype, ssrc, name, data);
      SnocPackets(c.apps, AppPacket(subtype, ssrc, name, data), APP, subtype);
    case _ =>
  }

  // ---------- the size limit over runs ----------

  /** The one call that can overrun the limit: a first SDES source accepted with under twelve bytes left. */
  predicate Overruns(c: Content, max: nat, call: Call)
    requires WellTyped(call)
  {
    call.AddSDESSource? && c.sources == [] && c.Total() + 12 > max
  }

  /** A call keeps the contents within the limit exactly when it is not that one. */
  lemma FitKeptExactly(c: Content, max: nat, call: Call)
    requires c.Valid() && WellTyped(call) && c.Total() <= max < SIZE_T
    ensures Perform(c, max, call).0.Valid()
    ensures Perform(c, max, call).0.Total() <= max <==> !Overruns(c, max, call)
  {
    hide Flatten, AllHeaded, AllKnown, AllFit, ReportBytes, ReportBytesWithBlock, SdesBytesWithSource;
    hide SdesBytesWithItem, ByePacket, AppPacket, Be32, WithItem, ByeSize;
    if Perform(c, max, call).1 == Ok {
      PredictionIsActual(c, max, call);
      if c.report.headerdata == [] {
        NoReportNoBytes(c.report);
      }
      match call
      case AddSDESSource(_) =>
        assert c.sources == [] ==> SdesBytes(c.sources) == 0;
      case _ =>
    } else {
      RefusalChangesNothing(c, max, call);
      RefusedSourceHasNoRoom(c, max, call);
    }
  }

  lemma NoReportNoBytes(r: Report)
    requires r.Valid() && r.headerdata == []
    ensures ReportBytes(r) == 0
  {
  }

  /** A refused call leaves the contents alone. */
  lemma RefusalChangesNothing(c: Content, max: nat, call: Call)
    requires WellTyped(call) && Perform(c, max, call).1 != Ok
    ensures Perform(c, max, call).0 == c
  {
  }

  lemma RefusedSourceHasNoRoom(c: Content, max: nat, call: Call)
    requires WellTyped(call) && Perform(c, max, call).1 != Ok && c.Total() <= max
    ensures !Overruns(c, max, call)
  {
  }

  function PerformAll(c: Content, max: nat, calls: seq<Call>): Content
    requires forall i :: 0 <= i < |calls| ==> WellTyped(calls[i])
    decreases |calls|
  {
    if calls == [] then c else PerformAll(Perform(c, max, calls[0]).0, max, calls[1..])
  }

  predicate NeverOverruns(c: Content, max: nat, calls: seq<Call>)
    requires forall i :: 0 <= i < |calls| ==> WellTyped(calls[i])
    decreases |calls|
  {
    calls == [] || (!Overruns(c, max, calls[0]) && NeverOverruns(Perform(c, max, calls[0]).0, max, calls[1..]))
  }

  lemma GroupsGrow(n: nat)
    ensures Groups(n) <= Groups(n + 1)
  {
  }

  lemma BlockGrows(r: Report)
    requires r.Valid() && r.headerdata != []
    ensures ReportBytes(r) <= ReportBytesWithBlock(r)
  {
    GroupsGrow(|r.blocks|);
  }

  lemma SdesGrows(sources: seq<Source>, itemLength: nat)
    ensures SdesBytes(sources) <= SdesBytesWithSource(sources)
    ensures SdesBytes(sources) <= SdesBytesWithItem(sources, itemLength)
  {
    hide Groups, SourceBytes;
    GroupsGrow(|sources|);
    if sources != [] {
      var last := |sources| - 1;
      assert sources[..last + 1] == sources == sources[..last] + [sources[last]];
      SumConcat(sources[..last], [sources[last]]);
      assert [sources[last]][1..] == [];
      ItemGrows(sources[last].ItemBytes(), itemLength);
    }
  }

  lemma ItemGrows(itemBytes: nat, itemLength: nat)
    ensures SourceBytes(itemBytes) <= SourceBytes(itemBytes + SDES_HEADER + itemLength)
  {
  }

  /** No call makes the packet smaller. */
  lemma NeverShrinks(c: Content, max: nat, call: Call)
    requires c.Valid() && WellTyped(call)
    ensures Perform(c, max, call).0.Valid() && Perform(c, max, call).0.Total() >= c.Total()
  {
    hide Flatten, AllHeaded, AllKnown, AllFit, OfType, ReportBytes, ReportBytesWithBlock, SdesBytes;
    hide SdesBytesWithSource, SdesBytesWithItem, ByePacket, AppPacket, Be32, WithItem, ByeSize;
    if Perform(c, max, call).1 != Ok {
      RefusalChangesNothing(c, max, call);
    } else {
      PredictionIsActual(c, max, call);
      match call
      case AddReportBlock(_) => BlockGrows(c.report);
      case AddSDESSource(_) =>
        SdesGrows(c.sources, 0);
        assert c.sources == [] ==> SdesBytes(c.sources) == 0 by {
          NoSourceNoBytes();
        }
      case AddSDESNormalItem(_, value) => SdesGrows(c.sources, |value|);
      case AddSDESPrivateItem(prefix, value) => SdesGrows(c.sources, |prefix| + 1 + |value|);
      case _ =>
    }
  }

  lemma NoSourceNoBytes()
    ensures SdesBytes([]) == 0
  {
  }

  lemma {:induction false} RunsGrow(c: Content, max: nat, calls: seq<Call>)
    requires c.Valid() && forall i :: 0 <= i < |calls| ==> WellTyped(calls[i])
    ensures PerformAll(c, max, calls).Valid() && PerformAll(c, max, calls).Total() >= c.Total()
    decreases |calls|
  {
    hide Perform, WellTyped;
    if calls != [] {
      NeverShrinks(c, max, calls[0]);
      RunsGrow(Perform(c, max, calls[0]).0, max, calls[1..]);
    }
  }

  /** Over every run the contents stay well-formed, and they end within the limit if and only if that call
      never occurs. */
  lemma {:induction false} RunsFit(c: Content, max: nat, calls: seq<Call>)
    requires forall i :: 0 <= i < |calls| ==> WellTyped(calls[i])
    requires c.Valid() && c.Total() <= max < SIZE_T
    ensures PerformAll(c, max, calls).Valid()
    ensures PerformAll(c, max, calls).Total() <= max <==> NeverOverruns(c, max, calls)
    decreases |calls|
  {
    hide Perform, WellTyped, Overruns;
    if calls != [] {
      FitKeptExactly(c, max, calls[0]);
      if Overruns(c, max, calls[0]) {
        RunsGrow(Perform(c, max, calls[0]).0, max, calls[1..]);
      } else {
        RunsFit(Perform(c, max, calls[0]).0, max, calls[1..]);
      }
    }
  }

  /** Once there is a source no call overruns any more. */
  lemma {:induction false} SourceSettles(c: Content, max: nat, calls: seq<Call>)
    requires (forall i :: 0 <= i < |calls| ==> WellTyped(calls[i])) && c.sources != []
    ensures NeverOverruns(c, max, calls)
    decreases |calls|
  {
    if calls != [] {
      SourceSettles(Perform(c, max, calls[0]).0, max, calls[1..]);
    }
  }

  lemma EmptyIsValid()
    ensures EMPTY.Valid() && EMPTY.Total() == 0
  {
  }

  /** The order used by BuildNextPacket and BuildBYEPacket, a report and then the own source, never overruns. */
  lemma ReportThenSourceFits(max: nat, start: Call, ssrc: U32, calls: seq<Call>)
    requires RTP_MINPACKETSIZE <= max < SIZE_T
    requires WellTyped(start) && (start.StartSenderReport? || start.StartReceiverReport?)
    requires forall i :: 0 <= i < |calls| ==> WellTyped(calls[i])
    ensures var all := [start, AddSDESSource(ssrc)] + calls;
            && (forall i :: 0 <= i < |all| ==> WellTyped(all[i]))
            && PerformAll(EMPTY, max, all).Valid() && PerformAll(EMPTY, max, all).Total() <= max
  {
    hide Be32, AllHeaded, AllKnown, AllFit;
    var all := [start, AddSDESSource(ssrc)] + calls;
    EmptyIsValid();
    var c1 := Perform(EMPTY, max, start).0;
    assert Perform(EMPTY, max, start).1 == Ok;
    var c2 := Perform(c1, max, AddSDESSource(ssrc)).0;
    assert all[1..] == [AddSDESSource(ssrc)] + calls && all[1..][1..] == calls;
    SourceSettles(c2, max, calls);
    RunsFit(EMPTY, max, all);
  }

  /** The limit can be exceeded: with 600 bytes allowed, a receiver report and an APP packet that fill them
      leave the first source accepted, and the compound packet would take 612 bytes. */
  lemma FirstSourceCanOverrun(data: seq<Byte>)
    requires |data| == 580
    ensures var calls := [StartReceiverReport(1), AddAPPPacket(0, 1, [65, 65, 65, 65], data), AddSDESSource(1)];
            (forall i :: 0 <= i < |calls| ==> WellTyped(calls[i])) && PerformAll(EMPTY, 600, calls).Total() == 612
  {
    var start, app, source := StartReceiverReport(1), AddAPPPacket(0, 1, [65, 65, 65, 65], data), AddSDESSource(1);
    EmptyIsValid();
    var c1 := Perform(EMPTY, 600, start).0;
    PredictionIsActual(EMPTY, 600, start);
    assert c1.Total() == 8;
    var c2 := Perform(c1, 600, app).0;
    PredictionIsActual(c1, 600, app);
    assert c2.Total() == 600;
    PredictionIsActual(c2, 600, source);
    assert PerformAll(c2, 600, [source]) == Perform(c2, 600, source).0 by {
      assert [source][1..] == [];
    }
    hide Perform;
    assert [start, app, source][1..] == [app, source] && [app, source][1..] == [source] && [source][1..] == [];
  }

  // ---------- the finished compound packet ----------

  /** The packets EndBuild writes: reports, SDES, APP, BYE. */
  function Packets(c: Content): (ps: seq<seq<Byte>>)
    requires |c.report.headerdata| >= 4
    ensures ps != []
  {
    ReportPackets(c.report.isSR, c.report.headerdata, c.report.blocks) + SdesPackets(c.sources) + c.apps + c.byes
  }

  /** EndBuild writes precisely the predicted number of bytes. */
  lemma EndSizeExact(c: Content)
    requires c.Valid() && c.report.headerdata != []
    ensures |c.report.headerdata| >= 4 && |Flatten(Packets(c))| == c.Total()
  {
    hide Flatten, ReportPackets, SdesPackets, SdesBytes, AllHeaded, AllKnown, AllFit, Groups;
    var reports := ReportPackets(c.report.isSR, c.report.headerdata, c.report.blocks);
    var sdes := SdesPackets(c.sources);
    FlattenConcat(reports, sdes);
    FlattenConcat(reports + sdes, c.apps);
    FlattenConcat(reports + sdes + c.apps, c.byes);
    ReportPacketsExact(c.report.isSR, c.report.headerdata, c.report.blocks);
    SdesPacketsExact(c.sources);
  }

  lemma PacketsWellBuilt(c: Content)
    requires c.Valid() && c.report.headerdata != []
    ensures AllHeaded(Packets(c)) && AllKnown(Packets(c))
    ensures AllFit(Packets(c)) <==> AllFit(SdesPackets(c.sources))
    ensures |Packets(c)[0]| > 1 && (Packets(c)[0][1] == SR || Packets(c)[0][1] == RR)
  {
    hide ReportPackets, SdesPackets, AllHeaded, AllKnown, AllFit;
    var reports := ReportPackets(c.report.isSR, c.report.headerdata, c.report.blocks);
    var sdes := SdesPackets(c.sources);
    ReportPacketsKnown(c.report.isSR, c.report.headerdata, c.report.blocks);
    SdesPacketsKnown(c.sources);
    HeadedConcat(reports, sdes);
    HeadedConcat(reports + sdes, c.apps);
    HeadedConcat(reports + sdes + c.apps, c.byes);
    KnownConcat(reports, sdes);
    KnownConcat(reports + sdes, c.apps);
    KnownConcat(reports + sdes + c.apps, c.byes);
    FitConcat(reports, sdes);
    FitConcat(reports + sdes, c.apps);
    FitConcat(reports + sdes + c.apps, c.byes);
  }

  /** The receiver's parser finds exactly the packets the builder listed, and each passes its own format
      check, if and only if every SDES packet fits the 16-bit length field. */
  lemma CompoundRoundTrip(c: Content)
    requires c.Valid() && c.report.headerdata != []
    ensures AllKnown(Packets(c))
    ensures Parse(Flatten(Packets(c))) == Some(EntriesOf(Packets(c), 0)) <==> AllFit(SdesPackets(c.sources))
  {
    hide Packets, SdesPackets, AllHeaded, AllKnown, AllFit, ParseFrom, EntriesOf, Flatten;
    var ps := Packets(c);
    PacketsWellBuilt(c);
    FitMeansSelfDescribing(ps);
    if AllFit(ps) {
      ParseOfPackets(ps);
    }
    if Parse(Flatten(ps)) == Some(EntriesOf(ps, 0)) {
      assert [] + Flatten(ps) == Flatten(ps);
      ParsedMeansSelfDescribing([], ps, true);
    }
  }

  lemma {:induction false} SmallPacketsFit(ps: seq<seq<Byte>>)
    requires |Flatten(ps)| <= MAX_PACKET
    ensures AllFit(ps)
    decreases |ps|
  {
    if ps != [] {
      SmallPacketsFit(ps[1..]);
    }
  }

  /** Every compound packet of a run within a limit of at most 2^18 bytes survives the round trip. */
  lemma BuiltPacketParses(max: nat, calls: seq<Call>)
    requires RTP_MINPACKETSIZE <= max <= MAX_PACKET
    requires forall i :: 0 <= i < |calls| ==> WellTyped(calls[i])
    requires NeverOverruns(EMPTY, max, calls) && PerformAll(EMPTY, max, calls).report.headerdata != []
    ensures var c := PerformAll(EMPTY, max, calls);
            && c.report.Valid() && |Flatten(Packets(c))| <= max
            && Parse(Flatten(Packets(c))) == Some(EntriesOf(Packets(c), 0)) && AllKnown(Packets(c))
  {
    hide Perform, NeverOverruns, Flatten, Parse, EntriesOf, AllKnown, AllHeaded, AllFit, Packets;
    EmptyIsValid();
    RunsFit(EMPTY, max, calls);
    var c := PerformAll(EMPTY, max, calls);
    EndSizeExact(c);
    CompoundRoundTrip(c);
    SdesPacketsExact(c.sources);
    SmallPacketsFit(SdesPackets(c.sources));
  }
}
