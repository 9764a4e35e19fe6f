/** What the compound builder's state stands for: the packets it will write, and the sizes it predicts. */
module RtcpLayout {
  import opened Bytes
  import opened RtcpFormat

  // ---------- the builder's contents ----------

  /** Sender SSRC, and sender info when it is a sender report; empty until a report is started. */
  datatype Report = Report(isSR: bool, headerdata: seq<Byte>, blocks: seq<seq<Byte>>) {
    predicate Valid() {
      && (headerdata != [] ==> |headerdata| == if isSR then 4 + SENDER_REPORT else 4)
      && (headerdata == [] ==> blocks == [] && !isSR)
      && forall i :: 0 <= i < |blocks| ==> |blocks[i]| == RECEIVER_REPORT
    }
  }

  /** An SDES chunk under construction. */
  datatype Source = Source(ssrc: U32, items: seq<seq<Byte>>) {
    predicate Valid() {
      forall i :: 0 <= i < |items| ==> ValidItem(items[i])
    }

    /** totalitemsize */
    function ItemBytes(): nat {
      |Flatten(items)|
    }
  }

  /** An SDES item as it is stored: id, length, value. */
  predicate ValidItem(item: seq<Byte>) {
    |item| >= SDES_HEADER && item[0] != 0 && item[1] == |item| - SDES_HEADER
  }

  predicate ValidSources(sources: seq<Source>) {
    forall i :: 0 <= i < |sources| ==> sources[i].Valid()
  }

  // ---------- predicted sizes ----------

  /** Packets needed for n entries of at most 31 a packet. */
  function Groups(n: nat): nat {
    if n % 31 != 0 then n / 31 + 1 else n / 31
  }

  /** Report::NeededBytes */
  function ReportBytes(r: Report): nat {
    var n := |r.blocks|;
    if n == 0 then (if r.headerdata == [] then 0 else COMMON_HEADER + |r.headerdata|)
    else n * RECEIVER_REPORT + Groups(n) * (COMMON_HEADER + 4) + (if r.isSR then SENDER_REPORT else 0)
  }

  /** Report::NeededBytesWithExtraReportBlock */
  function ReportBytesWithBlock(r: Report): nat {
    var n := |r.blocks| + 1;
    n * RECEIVER_REPORT + Groups(n) * (COMMON_HEADER + 4) + (if r.isSR then SENDER_REPORT else 0)
  }

  /** Bytes of a chunk with that many bytes of items: SSRC, items, end marker, alignment. */
  function SourceBytes(itemBytes: nat): (r: nat)
    ensures r % 4 == 0 && itemBytes + 5 <= r < itemBytes + 9
  {
    var x, rem := itemBytes + 1, (itemBytes + 1) % 4;
    (if rem != 0 then x + (4 - rem) else x) + 4
  }

  function SumBytes(sources: seq<Source>): nat {
    if sources == [] then 0 else SourceBytes(sources[0].ItemBytes()) + SumBytes(sources[1..])
  }

  /** SDES::NeededBytes */
  function SdesBytes(sources: seq<Source>): nat {
    if sources == [] then 0 else SumBytes(sources) + Groups(|sources|) * COMMON_HEADER
  }

  /** SDES::NeededBytesWithExtraItem; the current source is the last one. */
  function SdesBytesWithItem(sources: seq<Source>, itemLength: nat): nat {
    if sources == [] then 0
    else
      var last := |sources| - 1;
      SumBytes(sources[..last]) + SourceBytes(sources[last].ItemBytes() + SDES_HEADER + itemLength)
      + Groups(|sources|) * COMMON_HEADER
  }

  /** SDES::NeededBytesWithExtraSource; note the 0 for an empty list. */
  function SdesBytesWithSource(sources: seq<Source>): nat {
    if sources == [] then 0
    else SumBytes(sources) + 8 + Groups(|sources| + 1) * COMMON_HEADER
  }

  // ---------- the packets written ----------

  function ReportPacket(asSR: bool, headerdata: seq<Byte>, blocks: seq<seq<Byte>>): seq<Byte>
    requires |blocks| <= MAX_COUNT && |headerdata| >= 4
  {
    var body := (if asSR then headerdata else headerdata[..4]) + Flatten(blocks);
    Header(if asSR then SR else RR, |blocks|, COMMON_HEADER + |body|) + body
  }

  /** One report with up to 31 blocks, then receiver reports for the rest. */
  function ReportPackets(asSR: bool, headerdata: seq<Byte>, blocks: seq<seq<Byte>>): (ps: seq<seq<Byte>>)
    requires |headerdata| >= 4
    ensures ps != []
    decreases |blocks|
  {
    var n := Min(MAX_COUNT, |blocks|);
    [ReportPacket(asSR, headerdata, blocks[..n])]
    + (if n == |blocks| then [] else ReportPackets(false, headerdata, blocks[n..]))
  }

  function Zeros(n: nat): (z: seq<Byte>)
    ensures |z| == n && forall i :: 0 <= i < n ==> z[i] == 0
  {
    seq(n, _ => 0)
  }

  function ChunkBytes(s: Source): (b: seq<Byte>)
    ensures |b| == SourceBytes(s.ItemBytes())
  {
    Be32(s.ssrc) + Flatten(s.items) + Zeros(SourceBytes(s.ItemBytes()) - 4 - s.ItemBytes())
  }

  function ChunksOf(sources: seq<Source>): (b: seq<Byte>)
    ensures |b| == SumBytes(sources)
  {
    if sources == [] then [] else ChunkBytes(sources[0]) + ChunksOf(sources[1..])
  }

  function SdesPacket(sources: seq<Source>): seq<Byte>
    requires |sources| <= MAX_COUNT
  {
    Header(SDES, |sources|, COMMON_HEADER + SumBytes(sources)) + ChunksOf(sources)
  }

  function SdesPackets(sources: seq<Source>): seq<seq<Byte>>
    decreases |sources|
  {
    if sources == [] then []
    else
      var n := Min(MAX_COUNT, |sources|);
      [SdesPacket(sources[..n])] + SdesPackets(sources[n..])
  }

  // ---------- the prediction is exact ----------

  lemma GroupsStep(n: nat)
    ensures n > 31 ==> Groups(n) == 1 + Groups(n - 31)
    ensures 0 < n <= 31 ==> Groups(n) == 1
    ensures Groups(0) == 0
  {
  }

  lemma {:induction false} BlockBytes(blocks: seq<seq<Byte>>)
    requires forall i :: 0 <= i < |blocks| ==> |blocks[i]| == RECEIVER_REPORT
    ensures |Flatten(blocks)| == |blocks| * RECEIVER_REPORT
    decreases |blocks|
  {
    if blocks != [] {
      BlockBytes(blocks[1..]);
    }
  }

  /** Every report packet is headed, known, and together they take the predicted bytes. */
  lemma {:induction false} ReportPacketsExact(asSR: bool, headerdata: seq<Byte>, blocks: seq<seq<Byte>>)
    requires |headerdata| >= 4 && (asSR ==> |headerdata| == 4 + SENDER_REPORT)
    requires forall i :: 0 <= i < |blocks| ==> |blocks[i]| == RECEIVER_REPORT
    ensures |Flatten(ReportPackets(asSR, headerdata, blocks))|
            == |blocks| * RECEIVER_REPORT + (if |blocks| == 0 then 1 else Groups(|blocks|)) * (COMMON_HEADER + 4)
               + (if asSR then SENDER_REPORT else 0)
    decreases |blocks|
  {
    var n := Min(MAX_COUNT, |blocks|);
    var first := ReportPacket(asSR, headerdata, blocks[..n]);
    BlockBytes(blocks[..n]);
    GroupsStep(|blocks|);
    assert |first| == COMMON_HEADER + 4 + n * RECEIVER_REPORT + (if asSR then SENDER_REPORT else 0);
    FlattenCons(ReportPackets(asSR, headerdata, blocks));
    if n < |blocks| {
      ReportPacketsExact(false, headerdata, blocks[n..]);
      assert ReportPackets(asSR, headerdata, blocks)[1..] == ReportPackets(false, headerdata, blocks[n..]);
    } else {
      assert ReportPackets(asSR, headerdata, blocks)[1..] == [];
    }
  }

  lemma {:induction false} SumConcat(a: seq<Source>, b: seq<Source>)
    ensures SumBytes(a + b) == SumBytes(a) + SumBytes(b)
    decreases |a|
  {
    if a == [] {
      assert a + b == b;
    } else {
      SumConcat(a[1..], b);
      assert (a + b)[1..] == a[1..] + b;
    }
  }

  lemma {:induction false} SdesPacketsExact(sources: seq<Source>)
    ensures |Flatten(SdesPackets(sources))| == SdesBytes(sources)
    decreases |sources|
  {
    if sources != [] {
      var n := Min(MAX_COUNT, |sources|);
      SumConcat(sources[..n], sources[n..]);
      assert sources == sources[..n] + sources[n..];
      GroupsStep(|sources|);
      SdesPacketsExact(sources[n..]);
      FlattenCons(SdesPackets(sources));
      assert SdesPackets(sources)[1..] == SdesPackets(sources[n..]);
    }
  }
}
