/** The builder's calls judged from outside: which are accepted, why the others are refused, and that over a whole
    run the contents are what the accepted calls brought, in order, and nothing else. */
module RtcpCalls {
  import opened Bytes
  import opened RtcpFormat
  import opened RtcpLayout
  import opened RtcpRoundTrip
  import opened RtcpCompound

  // ----- one call -----

  /** What is wrong with a call whatever the room, the first objection first. */
  function Objection(c: Content, call: Call): (s: Status)
    requires WellTyped(call)
    ensures s != NotEnoughBytesLeft
  {
    match call
    case StartSenderReport(_, _) => if |c.report.headerdata| > 0 then AlreadyGotReport else Ok
    case StartReceiverReport(_) => if |c.report.headerdata| > 0 then AlreadyGotReport else Ok
    case AddReportBlock(_) => if |c.report.headerdata| > 0 then Ok else ReportNotStarted
    case AddSDESSource(_) => Ok
    case AddSDESNormalItem(id, _) =>
      if |c.sources| == 0 then NoCurrentSource
      else if id in {1, 2, 3, 4, 5, 6, 7} then Ok else InvalidItemType
    case AddSDESPrivateItem(prefix, value) =>
      if |c.sources| == 0 then NoCurrentSource
      else if |prefix| + |value| < 255 then Ok else TotalItemLengthTooBig
    case AddBYEPacket(ssrcs, _) => if |ssrcs| < 32 then Ok else TooManySsrcs
    case AddAPPPacket(subtype, _, _, data) =>
      if subtype >= 32 then IllegalSubtype
      else if |data| % 4 > 0 then IllegalAppDataLength
      else if |data| < 262136 then Ok else AppDataLenTooBig
  }

  /** The block, packets and items a call brings. */
  function BlocksOf(call: Call): seq<seq<Byte>> {
    if call.AddReportBlock? then [call.block] else []
  }

  function AppsOf(call: Call): seq<seq<Byte>> {
    if call.AddAPPPacket? && call.subtype < 32 && |call.name| == 4
    then [AppPacket(call.subtype, call.ssrc, call.name, call.data)] else []
  }

  function ByesOf(call: Call): seq<seq<Byte>> {
    if call.AddBYEPacket? && |call.ssrcs| < 32 && |call.reason| < 256 then [ByePacket(call.ssrcs, call.reason)] else []
  }

  /** An item as it goes on the wire: its type, 8 for a private one, the length of what follows, and that. */
  function ItemsOf(call: Call): seq<seq<Byte>> {
    match call
    case AddSDESNormalItem(id, value) => if |value| < 256 then [[id, |value|] + value] else []
    case AddSDESPrivateItem(prefix, value) =>
      if |prefix| + |value| < 255 then [[8, |prefix| + 1 + |value|] + ([|prefix|] + prefix + value)] else []
    case _ => []
  }

  /** A source starts without items; items go to the source that is last. */
  function SourcesWith(sources: seq<Source>, call: Call): seq<Source> {
    if call.AddSDESSource? then sources + [Source(call.ssrc, [])]
    else if sources == [] then []
    else
      var last := |sources| - 1;
      sources[..last] + [Source(sources[last].ssrc, sources[last].items + ItemsOf(call))]
  }

  function HeaderOf(call: Call): seq<Byte> {
    match call
    case StartSenderReport(ssrc, info) => Be32(ssrc) + info
    case StartReceiverReport(ssrc) => Be32(ssrc)
    case _ => []
  }

  /** The contents with the call. */
  function Grown(c: Content, call: Call): Content {
    Content(Report(c.report.isSR || call.StartSenderReport?, c.report.headerdata + HeaderOf(call),
                   c.report.blocks + BlocksOf(call)),
            SourcesWith(c.sources, call), c.apps + AppsOf(call), c.byes + ByesOf(call))
  }

  lemma Sides<T>(a: seq<T>)
    ensures [] + a == a && a + [] == a
  {
  }

  lemma SameSources(sources: seq<Source>, call: Call)
    requires ItemsOf(call) == [] && !call.AddSDESSource?
    ensures SourcesWith(sources, call) == sources
  {
    if sources != [] {
      Sides(sources[|sources| - 1].items);
      assert sources == sources[..|sources| - 1] + [sources[|sources| - 1]];
    }
  }

  predicate BuildsSdes(call: Call) {
    call.AddSDESSource? || call.AddSDESNormalItem? || call.AddSDESPrivateItem?
  }

  lemma SdesBrings(c: Content, max: nat, call: Call)
    requires BuildsSdes(call) && WellTyped(call) && Perform(c, max, call).1 == Ok
    ensures Perform(c, max, call).0 == Grown(c, call)
  {
    hide SdesBytesWithItem, SdesBytesWithSource;
    Sides(c.report.headerdata);
    Sides(c.report.blocks);
    Sides(c.apps);
    Sides(c.byes);
  }

  lemma OthersBring(c: Content, max: nat, call: Call)
    requires !BuildsSdes(call) && c.Valid() && WellTyped(call) && Perform(c, max, call).1 == Ok
    ensures Perform(c, max, call).0 == Grown(c, call)
  {
    hide Be32, ByePacket, AppPacket, TooBigFor, AllHeaded, AllKnown, AllFit, OfType, SourcesWith;
    hide ReportBytesWithBlock, ByeSize;
    Sides(c.report.headerdata);
    Sides(c.report.blocks);
    Sides(c.apps);
    Sides(c.byes);
    Sides(HeaderOf(call));
    SameSources(c.sources, call);
  }

  /** An accepted call brings exactly what it was given. */
  lemma AcceptedBrings(c: Content, max: nat, call: Call)
    requires c.Valid() && WellTyped(call) && Perform(c, max, call).1 == Ok
    ensures Perform(c, max, call).0 == Grown(c, call)
  {
    hide Perform, Grown;
    if BuildsSdes(call) {
      SdesBrings(c, max, call);
    } else {
      OthersBring(c, max, call);
    }
  }

  /** Room for a call: its contents fit. A first source needs no room of its own, and where the limit has been
      passed already a report can be started, because the room left is computed as an unsigned number. */
  predicate Fits(c: Content, max: nat, call: Call) {
    if call.AddSDESSource? && c.sources == [] then c.Total() <= max
    else if call.StartSenderReport? || call.StartReceiverReport? then c.Total() > max || Grown(c, call).Total() <= max
    else Grown(c, call).Total() <= max
  }

  /** Accepted where there is ample room. */
  lemma AmpleRoom(c: Content, call: Call)
    requires c.Valid() && WellTyped(call) && Objection(c, call) == Ok
    ensures Perform(c, c.Total() + 1_000_000, call).1 == Ok
  {
    hide ByePacket, AppPacket, AllHeaded, AllKnown, AllFit, OfType, Flatten;
    hide SourceBytes, SumBytes, Groups;
    RoomForMore(c);
    if c.report.headerdata == [] {
      NoReportNoBytes(c.report);
    }
    match call
    case AddReportBlock(_) =>
    case AddSDESNormalItem(_, value) => ItemNeeds(c.sources, |value|);
    case AddSDESPrivateItem(prefix, value) => ItemNeeds(c.sources, |prefix| + 1 + |value|);
    case _ =>
  }

  lemma GroupsNext(n: nat)
    ensures Groups(n + 1) <= Groups(n) + 1
  {
  }

  lemma RoomForMore(c: Content)
    requires c.Valid()
    ensures c.report.headerdata != [] ==> ReportBytesWithBlock(c.report) <= ReportBytes(c.report) + 100
    ensures SdesBytesWithSource(c.sources) <= SdesBytes(c.sources) + 100
  {
    hide Groups;
    GroupsNext(|c.report.blocks|);
    GroupsNext(|c.sources|);
    GroupsStep(1);
  }

  lemma ItemNeeds(sources: seq<Source>, n: nat)
    requires sources != []
    ensures SdesBytesWithItem(sources, n) <= SdesBytes(sources) + n + 100
  {
    hide Groups;
    var last := |sources| - 1;
    assert sources == sources[..last] + [sources[last]];
    SumConcat(sources[..last], [sources[last]]);
    assert [sources[last]][1..] == [];
  }

  /** The verdict on a call: the first objection to it, or that there is no room, or it is accepted; and it is
      accepted if and only if neither is the case. */
  lemma CallJudged(c: Content, max: nat, call: Call)
    requires c.Valid() && WellTyped(call) && max < SIZE_T && c.Total() + 100 <= SIZE_T
    ensures var verdict := if Objection(c, call) != Ok then Objection(c, call)
                           else if Fits(c, max, call) then Ok else NotEnoughBytesLeft;
            Perform(c, max, call) == (if verdict == Ok then Grown(c, call) else c, verdict)
  {
    hide Grown, ByePacket, AppPacket, Be32, AllHeaded, AllKnown, AllFit, OfType, Flatten, ByeSize;
    hide SdesBytesWithSource, SdesBytesWithItem, ReportBytesWithBlock, ReportBytes, SdesBytes, WithItem;
    if Perform(c, max, call).1 == Ok {
      AcceptedBrings(c, max, call);
    }
    if Objection(c, call) == Ok {
      var ample := c.Total() + 1_000_000;
      AmpleRoom(c, call);
      AcceptedBrings(c, ample, call);
      PredictionIsActual(c, ample, call);
      if c.report.headerdata == [] {
        NoReportNoBytes(c.report);
      }
      if c.sources == [] {
        NoSourceNoBytes();
        NoSourceNoPrediction();
      }
    }
  }

  lemma NoSourceNoPrediction()
    ensures SdesBytesWithSource([]) == 0
  {
  }

  // ----- whole runs -----

  /** The calls of a run that were accepted. */
  function Accepted(c: Content, max: nat, calls: seq<Call>): seq<Call>
    requires forall i :: 0 <= i < |calls| ==> WellTyped(calls[i])
    decreases |calls|
  {
    if calls == [] then []
    else
      var r := Perform(c, max, calls[0]);
      (if r.1 == Ok then [calls[0]] else []) + Accepted(r.0, max, calls[1..])
  }

  function Gather(calls: seq<Call>, f: Call -> seq<seq<Byte>>): seq<seq<Byte>> {
    if calls == [] then [] else f(calls[0]) + Gather(calls[1..], f)
  }

  function GatherSources(sources: seq<Source>, calls: seq<Call>): seq<Source>
    decreases |calls|
  {
    if calls == [] then sources else GatherSources(SourcesWith(sources, calls[0]), calls[1..])
  }

  lemma GatherCons(call: Call, calls: seq<Call>, a: seq<seq<Byte>>, f: Call -> seq<seq<Byte>>)
    ensures a + Gather([call] + calls, f) == (a + f(call)) + Gather(calls, f)
  {
    assert ([call] + calls)[1..] == calls;
    ConcatAssoc(a, f(call), Gather(calls, f));
  }

  /** Over every run the contents grow by what the accepted calls brought: their blocks, APP and BYE packets in
      order, their sources, each with the items added while it was last; refused calls leave no trace. */
  lemma {:induction false} RunGathers(c: Content, max: nat, calls: seq<Call>)
    requires c.Valid() && forall i :: 0 <= i < |calls| ==> WellTyped(calls[i])
    ensures var d, ok := PerformAll(c, max, calls), Accepted(c, max, calls);
            && d.report.blocks == c.report.blocks + Gather(ok, BlocksOf)
            && d.apps == c.apps + Gather(ok, AppsOf)
            && d.byes == c.byes + Gather(ok, ByesOf)
            && d.sources == GatherSources(c.sources, ok)
    decreases |calls|
  {
    hide Perform, WellTyped, BlocksOf, AppsOf, ByesOf, SourcesWith, AllHeaded, AllKnown, AllFit, OfType;
    if calls == [] {
      Sides(c.report.blocks);
      Sides(c.apps);
      Sides(c.byes);
    } else {
      var call, r := calls[0], Perform(c, max, calls[0]);
      var rest := Accepted(r.0, max, calls[1..]);
      NeverShrinks(c, max, call);
      RunGathers(r.0, max, calls[1..]);
      if r.1 == Ok {
        AcceptedBrings(c, max, call);
        GatherCons(call, rest, c.report.blocks, BlocksOf);
        GatherCons(call, rest, c.apps, AppsOf);
        GatherCons(call, rest, c.byes, ByesOf);
        assert ([call] + rest)[1..] == rest;
      } else {
        RefusalChangesNothing(c, max, call);
        assert [] + rest == rest;
      }
    }
  }

  lemma HeaderKept(c: Content, max: nat, call: Call)
    requires c.report.headerdata != [] && WellTyped(call)
    ensures var r := Perform(c, max, call);
            && r.0.report.headerdata == c.report.headerdata && r.0.report.isSR == c.report.isSR
            && (r.1 == Ok ==> HeaderOf(call) == [])
  {
    hide ByePacket, AppPacket, Be32, SdesBytesWithSource, SdesBytesWithItem, ReportBytesWithBlock, TooBigFor, ByeSize;
  }

  /** The report is the one that was accepted first, and none can follow. */
  lemma {:induction false} ReportStays(c: Content, max: nat, calls: seq<Call>)
    requires c.Valid() && c.report.headerdata != [] && forall i :: 0 <= i < |calls| ==> WellTyped(calls[i])
    ensures var d := PerformAll(c, max, calls);
            d.report.headerdata == c.report.headerdata && d.report.isSR == c.report.isSR
    ensures forall i :: 0 <= i < |Accepted(c, max, calls)| ==> HeaderOf(Accepted(c, max, calls)[i]) == []
    decreases |calls|
  {
    hide Perform, WellTyped, AllHeaded, AllKnown, AllFit, OfType, HeaderOf;
    if calls != [] {
      HeaderKept(c, max, calls[0]);
      NeverShrinks(c, max, calls[0]);
      ReportStays(Perform(c, max, calls[0]).0, max, calls[1..]);
    }
  }
}
