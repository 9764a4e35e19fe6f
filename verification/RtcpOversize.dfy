/** A run of builder calls whose compound packet the receiver's parser does not read as it was laid out: with a
    limit above 2^18 bytes one SDES packet can outgrow the 16-bit length field of its header. */
module RtcpOversize {
  import opened Bytes
  import opened RtcpFormat
  import opened RtcpLayout
  import opened RtcpCompound

  /** An item value of the greatest length, and how often each source gets it. */
  type LongValue = v: seq<Byte> | |v| == 255 witness seq(255, _ => 0)

  const ITEMS: nat := 34

  function LongItem(value: LongValue): (item: seq<Byte>)
    ensures |item| == 257 && ValidItem(item)
  {
    [1, 255] + value
  }

  function Copies(value: LongValue, n: nat): (items: seq<seq<Byte>>)
    ensures |items| == n && forall i :: 0 <= i < n ==> ValidItem(items[i])
  {
    if n == 0 then [] else Copies(value, n - 1) + [LongItem(value)]
  }

  lemma {:induction false} CopiesSize(value: LongValue, n: nat)
    ensures |Flatten(Copies(value, n))| == 257 * n
  {
    hide LongItem, Flatten;
    if n == 0 {
      FlattenNone();
    } else {
      CopiesSize(value, n - 1);
      SnocFlatten(Copies(value, n - 1), LongItem(value));
    }
  }

  function Filled(value: LongValue, n: nat): Source {
    Source(1, Copies(value, n))
  }

  function Full(value: LongValue, j: nat): (ss: seq<Source>)
    ensures |ss| == j
  {
    if j == 0 then [] else Full(value, j - 1) + [Filled(value, ITEMS)]
  }

  lemma OneSum(s: Source)
    ensures SumBytes([s]) == SourceBytes(s.ItemBytes())
  {
    assert [s][1..] == [] && SumBytes([]) == 0;
  }

  lemma {:induction false} FullSize(value: LongValue, j: nat)
    ensures SumBytes(Full(value, j)) == 8744 * j
    ensures ValidSources(Full(value, j))
  {
    hide Copies, SumBytes;
    if j == 0 {
      NoSum();
    } else {
      FullSize(value, j - 1);
      SumConcat(Full(value, j - 1), [Filled(value, ITEMS)]);
      CopiesSize(value, ITEMS);
      OneSum(Filled(value, ITEMS));
      assert SourceBytes(8738) == 8744;
    }
  }

  lemma NoSum()
    ensures SumBytes([]) == 0
  {
  }

  /** A receiver report and nothing but these sources. */
  function With(sources: seq<Source>): Content {
    Content(Report(false, Be32(1), []), sources, [], [])
  }

  lemma WithoutOf(sources: seq<Source>)
    ensures With(sources).WithoutSdes() == 8 && With(sources).Total() == 8 + SdesBytes(sources)
  {
    hide Be32, SdesBytes;
    FlattenNone();
  }

  const AMPLE: nat := 300000

  lemma SourceAccepted(value: LongValue, j: nat, max: nat)
    requires j < MAX_COUNT && AMPLE <= max
    ensures Perform(With(Full(value, j)), max, AddSDESSource(1)) == (With(Full(value, j) + [Filled(value, 0)]), Ok)
  {
    hide Full, SumBytes, Flatten, Be32, ReportBytes;
    FullSize(value, j);
    WithoutOf(Full(value, j));
    assert Groups(j + 1) == 1;
  }

  lemma ItemAccepted(value: LongValue, j: nat, m: nat, max: nat)
    requires j < MAX_COUNT && m < ITEMS && AMPLE <= max
    ensures Perform(With(Full(value, j) + [Filled(value, m)]), max, AddSDESNormalItem(1, value))
            == (With(Full(value, j) + [Filled(value, m + 1)]), Ok)
  {
    hide Full, SumBytes, Flatten, Be32, ReportBytes;
    var ss := Full(value, j) + [Filled(value, m)];
    FullSize(value, j);
    CopiesSize(value, m);
    WithoutOf(ss);
    assert ss[..j] == Full(value, j) && ss[j] == Filled(value, m);
    assert Groups(j + 1) == 1;
    assert WithItem(With(ss), LongItem(value)).sources == Full(value, j) + [Filled(value, m + 1)];
  }

  function ItemCalls(value: LongValue, n: nat): (calls: seq<Call>)
    ensures forall i :: 0 <= i < |calls| ==> WellTyped(calls[i])
  {
    if n == 0 then [] else [AddSDESNormalItem(1, value)] + ItemCalls(value, n - 1)
  }

  function SourceCalls(value: LongValue, n: nat): (calls: seq<Call>)
    ensures forall i :: 0 <= i < |calls| ==> WellTyped(calls[i])
  {
    if n == 0 then [] else [AddSDESSource(1)] + ItemCalls(value, ITEMS) + SourceCalls(value, n - 1)
  }

  lemma First(c: Content, max: nat, call: Call, rest: seq<Call>)
    requires WellTyped(call) && forall i :: 0 <= i < |rest| ==> WellTyped(rest[i])
    ensures forall i :: 0 <= i < |[call] + rest| ==> WellTyped(([call] + rest)[i])
    ensures PerformAll(c, max, [call] + rest) == PerformAll(Perform(c, max, call).0, max, rest)
  {
    hide Perform, WellTyped;
    assert ([call] + rest)[1..] == rest;
  }

  lemma {:induction false} ItemsRun(value: LongValue, j: nat, m: nat, n: nat, max: nat, rest: seq<Call>)
    requires j < MAX_COUNT && m + n <= ITEMS && AMPLE <= max
    requires forall i :: 0 <= i < |rest| ==> WellTyped(rest[i])
    ensures PerformAll(With(Full(value, j) + [Filled(value, m)]), max, ItemCalls(value, n) + rest)
            == PerformAll(With(Full(value, j) + [Filled(value, m + n)]), max, rest)
    decreases n
  {
    hide Perform, PerformAll, WellTyped, With, Full, Filled;
    if n == 0 {
      assert [] + rest == rest;
    } else {
      assert WellTyped(AddSDESNormalItem(1, value)) by {
        ItemWellTyped(value);
      }
      ItemAccepted(value, j, m, max);
      ConcatAssoc([AddSDESNormalItem(1, value)], ItemCalls(value, n - 1), rest);
      var c, item := With(Full(value, j) + [Filled(value, m)]), AddSDESNormalItem(1, value);
      First(c, max, item, ItemCalls(value, n - 1) + rest);
      ItemsRun(value, j, m + 1, n - 1, max, rest);
    }
  }

  lemma ItemWellTyped(value: LongValue)
    ensures WellTyped(AddSDESNormalItem(1, value)) && WellTyped(AddSDESSource(1))
  {
  }

  lemma {:induction false} SourcesRun(value: LongValue, j: nat, n: nat, max: nat)
    requires j + n <= MAX_COUNT && AMPLE <= max
    ensures PerformAll(With(Full(value, j)), max, SourceCalls(value, n)) == With(Full(value, j + n))
    decreases n
  {
    hide Perform, WellTyped, With, Filled, ItemCalls;
    if n > 0 {
      var source, items, rest := AddSDESSource(1), ItemCalls(value, ITEMS), SourceCalls(value, n - 1);
      ItemWellTyped(value);
      SourceAccepted(value, j, max);
      ConcatAssoc([source], items, rest);
      First(With(Full(value, j)), max, source, items + rest);
      ItemsRun(value, j, 0, ITEMS, max, rest);
      assert Full(value, j + 1) == Full(value, j) + [Filled(value, ITEMS)];
      SourcesRun(value, j + 1, n - 1, max);
    }
  }

  /** A receiver report, then 31 sources with 34 items of 257 bytes each. */
  function LongCalls(value: LongValue): (calls: seq<Call>)
    ensures forall i :: 0 <= i < |calls| ==> WellTyped(calls[i])
  {
    [StartReceiverReport(1)] + SourceCalls(value, MAX_COUNT)
  }

  lemma Started(max: nat)
    requires AMPLE <= max < SIZE_T
    ensures Perform(EMPTY, max, StartReceiverReport(1)) == (With([]), Ok)
  {
    hide Be32;
    EmptyIsValid();
  }

  lemma TooLongForField(value: LongValue)
    ensures !AllFit(SdesPackets(Full(value, MAX_COUNT)))
  {
    hide Full, SumBytes, SdesPacket;
    var ss := Full(value, MAX_COUNT);
    FullSize(value, MAX_COUNT);
    assert ss[..MAX_COUNT] == ss;
    PacketSize(ss);
    assert SdesPackets(ss)[0] == SdesPacket(ss);
  }

  lemma PacketSize(ss: seq<Source>)
    requires |ss| <= MAX_COUNT
    ensures |SdesPacket(ss)| == COMMON_HEADER + SumBytes(ss)
  {
  }

  /** The run is accepted call by call within any limit from 300000 bytes on, and what the receiver's parser
      finds in the finished packet is not what the builder laid out. */
  lemma LongSdesMisread(value: LongValue, max: nat)
    requires AMPLE <= max < SIZE_T
    ensures var c := PerformAll(EMPTY, max, LongCalls(value));
            && NeverOverruns(EMPTY, max, LongCalls(value)) && c.Valid() && c.Total() <= max
            && c.report.headerdata != [] && |c.sources| == MAX_COUNT
            && !AllFit(SdesPackets(c.sources))
            && |c.report.headerdata| >= 4 && Parse(Flatten(Packets(c))) != Some(EntriesOf(Packets(c), 0))
  {
    hide Perform, NeverOverruns, Full, SdesPackets, AllFit, Parse, EntriesOf, Packets, SumBytes, Flatten;
    var c := With(Full(value, MAX_COUNT));
    Started(max);
    First(EMPTY, max, StartReceiverReport(1), SourceCalls(value, MAX_COUNT));
    NoneFull(value);
    SourcesRun(value, 0, MAX_COUNT, max);
    EmptyIsValid();
    FullSize(value, MAX_COUNT);
    WithoutOf(Full(value, MAX_COUNT));
    assert Groups(MAX_COUNT) == 1;
    RunsFit(EMPTY, max, LongCalls(value));
    TooLongForField(value);
    CompoundRoundTrip(c);
  }

  lemma NoneFull(value: LongValue)
    ensures Full(value, 0) == []
  {
  }
}
