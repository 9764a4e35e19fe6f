/** RTCP packet formats of RFC 3550, sections 6.1 and 6.4 to 6.7, as the classes of JRTPLIB check them. */
module RtcpFormat {
  import opened Bytes

  const COMMON_HEADER := 4
  const SENDER_REPORT := 20
  const RECEIVER_REPORT := 24
  const SDES_HEADER := 2
  const MAX_COUNT := 31

  const SR: Byte := 200
  const RR: Byte := 201
  const SDES: Byte := 202
  const BYE: Byte := 203
  const APP: Byte := 204

  // ---------- the common header ----------

  function Version(d: seq<Byte>): nat
    requires |d| >= COMMON_HEADER
  {
    d[0] / 64
  }

  predicate Padding(d: seq<Byte>)
    requires |d| >= COMMON_HEADER
  {
    d[0] / 32 % 2 == 1
  }

  function Count(d: seq<Byte>): nat
    requires |d| >= COMMON_HEADER
  {
    d[0] % 32
  }

  /** Bytes the length field claims. */
  function ClaimedLength(d: seq<Byte>): (r: nat)
    requires |d| >= COMMON_HEADER
    ensures r >= COMMON_HEADER
  {
    (FromBe16(d, 2) + 1) * 4
  }

  /** A header with padding bit clear. The length field holds the low 16 bits of words - 1. */
  function Header(ptype: Byte, count: nat, size: nat): (h: seq<Byte>)
    requires count <= MAX_COUNT && size >= COMMON_HEADER
    ensures |h| == COMMON_HEADER
  {
    [128 + count, ptype] + Be16((size / 4 - 1) % 0x1_0000)
  }

  // ---------- format checks of the packet classes ----------

  /** Length without padding; None when the padding count is malformed. */
  function Unpadded(d: seq<Byte>): (r: Option<nat>)
    requires |d| >= COMMON_HEADER
    ensures r.Some? ==> r.value <= |d|
  {
    if !Padding(d) then Some(|d|)
    else if d[|d| - 1] % 4 != 0 || d[|d| - 1] >= |d| then None
    else Some(|d| - d[|d| - 1])
  }

  predicate KnownSR(d: seq<Byte>)
    requires |d| >= COMMON_HEADER
  {
    Unpadded(d) == Some(COMMON_HEADER + 4 + SENDER_REPORT + RECEIVER_REPORT * Count(d))
  }

  predicate KnownRR(d: seq<Byte>)
    requires |d| >= COMMON_HEADER
  {
    Unpadded(d) == Some(COMMON_HEADER + 4 + RECEIVER_REPORT * Count(d))
  }

  predicate KnownBYE(d: seq<Byte>)
    requires |d| >= COMMON_HEADER
  {
    var len, ssrcs := Unpadded(d), COMMON_HEADER + 4 * Count(d);
    && len.Some? && ssrcs <= len.value
    && (ssrcs < len.value ==> d[ssrcs] <= len.value - ssrcs - 1)
  }

  predicate KnownAPP(d: seq<Byte>)
    requires |d| >= COMMON_HEADER
  {
    var len := Unpadded(d);
    len.Some? && len.value >= COMMON_HEADER + 8
  }

  // ---------- SDES: chunks and items ----------

  /** An item of an SDES chunk: where its header lies, its id and its value length. */
  datatype Item = Item(at: nat, id: Byte, length: nat)

  /** A chunk: where its SSRC lies, its items and where the next chunk starts. */
  datatype Chunk = Chunk(at: nat, items: seq<Item>, next: nat)

  /** First multiple of four bytes after start that is not before pos. */
  function Aligned(start: nat, pos: nat): (r: nat)
    requires start <= pos
    ensures pos <= r < pos + 4 && (r - start) % 4 == 0
  {
    var rem := (pos - start) % 4;
    if rem == 0 then pos else pos + (4 - rem)
  }

  /** Walks the items at d[pos..len] of the chunk that starts at start; None if they overrun. */
  function WalkItems(d: seq<Byte>, len: nat, start: nat, pos: nat): (r: Option<(seq<Item>, nat)>)
    requires start <= pos <= len <= |d|
    ensures r.Some? ==> pos < r.value.1 <= len && (r.value.1 - start) % 4 == 0
    decreases len - pos
  {
    if len - pos < 1 then None
    else if d[pos] == 0 then
      var next := Aligned(start, pos + 1);
      if next > len then None else Some(([], next))
    else if len - pos < SDES_HEADER || d[pos + 1] > len - pos - SDES_HEADER then None
    else
      var rest := WalkItems(d, len, start, pos + SDES_HEADER + d[pos + 1]);
      if rest.None? then None
      else Some(([Item(pos, d[pos], d[pos + 1])] + rest.value.0, rest.value.1))
  }

  /** Walks count chunks, which must fill d[pos..len] exactly. */
  function WalkChunks(d: seq<Byte>, len: nat, pos: nat, count: nat): (r: Option<seq<Chunk>>)
    requires pos <= len <= |d|
    ensures r.Some? ==> |r.value| == count
    decreases count
  {
    if count == 0 then (if pos == len then Some([]) else None)
    else if len - pos < 8 then None
    else
      var items := WalkItems(d, len, pos, pos + 4);
      if items.None? then None
      else
        var rest := WalkChunks(d, len, items.value.1, count - 1);
        if rest.None? then None else Some([Chunk(pos, items.value.0, items.value.1)] + rest.value)
  }

  /** What the SDES validator walks, if it accepts the packet. */
  function SdesWalk(d: seq<Byte>): (r: Option<seq<Chunk>>)
    requires |d| >= COMMON_HEADER
    ensures r.Some? ==> |r.value| == Count(d)
  {
    var len := Unpadded(d);
    if len.None? || len.value < COMMON_HEADER then None
    else WalkChunks(d, len.value, COMMON_HEADER, Count(d))
  }

  /** The check the class for this packet type performs; other types are trivially known. */
  predicate Known(d: seq<Byte>)
    requires |d| >= COMMON_HEADER
  {
    if d[1] == SR then KnownSR(d)
    else if d[1] == RR then KnownRR(d)
    else if d[1] == SDES then SdesWalk(d).Some?
    else if d[1] == BYE then KnownBYE(d)
    else if d[1] == APP then KnownAPP(d)
    else true
  }

  // ---------- the compound packet ----------

  /** An entry of rtcppacklist: type, position and length of one packet. */
  datatype Entry = Entry(ptype: Byte, at: nat, length: nat)

  /** ParseData from position at on, where at least a common header remains. */
  function ParseFrom(data: seq<Byte>, at: nat, first: bool): Option<seq<Entry>>
    requires at + COMMON_HEADER <= |data|
    decreases |data| - at
  {
    var d := data[at..];
    var length := ClaimedLength(d);
    if Version(d) != 2 then None
    else if first && d[1] != SR && d[1] != RR then None
    else if length > |d| then None
    else if Padding(d) && length != |d| then None
    else
      var here := Entry(d[1], at, length);
      if |d| - length >= COMMON_HEADER then
        var rest := ParseFrom(data, at + length, false);
        if rest.None? then None else Some([here] + rest.value)
      else if |d| == length then Some([here])
      else None
  }

  /** RTCPCompoundPacket::ParseData: None stands for ERR_RTP_RTCPCOMPOUND_INVALIDPACKET. */
  function Parse(data: seq<Byte>): Option<seq<Entry>> {
    if |data| < COMMON_HEADER then None else ParseFrom(data, 0, true)
  }

  // ---------- well-formed packets parse back ----------

  /** A packet whose own header describes it. */
  predicate SelfDescribing(p: seq<Byte>) {
    && |p| >= COMMON_HEADER
    && Version(p) == 2 && !Padding(p) && ClaimedLength(p) == |p|
  }

  predicate AllSelfDescribing(ps: seq<seq<Byte>>) {
    ps == [] || (SelfDescribing(ps[0]) && AllSelfDescribing(ps[1..]))
  }

  /** The list that a sequence of packets laid end to end should give. */
  function EntriesOf(ps: seq<seq<Byte>>, at: nat): (es: seq<Entry>)
    ensures |es| == |ps|
  {
    if ps == [] then []
    else [Entry(if |ps[0]| > 1 then ps[0][1] else 0, at, |ps[0]|)] + EntriesOf(ps[1..], at + |ps[0]|)
  }

  /** One turn of the parser's loop over a self-describing packet. */
  lemma ParseStep(data: seq<Byte>, at: nat, first: bool, p: seq<Byte>, rest: seq<Byte>)
    requires at <= |data| && data[at..] == p + rest && SelfDescribing(p)
    requires first ==> p[1] == SR || p[1] == RR
    ensures ParseFrom(data, at, first)
            == if |rest| >= COMMON_HEADER then
                 var tail := ParseFrom(data, at + |p|, false);
                 if tail.None? then None else Some([Entry(p[1], at, |p|)] + tail.value)
               else if rest == [] then Some([Entry(p[1], at, |p|)])
               else None
  {
    hide FromBe16;
    var d := p + rest;
    assert d[0] == p[0] && d[1] == p[1];
    ClaimOfPrefix(p, rest);
  }

  lemma ClaimOfPrefix(p: seq<Byte>, rest: seq<Byte>)
    requires |p| >= COMMON_HEADER
    ensures ClaimedLength(p + rest) == ClaimedLength(p)
  {
  }

  lemma {:induction false} ParseConcat(before: seq<Byte>, ps: seq<seq<Byte>>, first: bool)
    requires ps != [] && AllSelfDescribing(ps)
    requires first ==> ps[0][1] == SR || ps[0][1] == RR
    ensures |Flatten(ps)| >= COMMON_HEADER
    ensures ParseFrom(before + Flatten(ps), |before|, first) == Some(EntriesOf(ps, |before|))
    decreases |ps|
  {
    hide ParseFrom, ClaimedLength, Version, Padding, Flatten;
    var p, rest := ps[0], Flatten(ps[1..]);
    FlattenCons(ps);
    ConcatAssoc(before, p, rest);
    assert (before + (p + rest))[|before|..] == p + rest;
    ParseStep(before + (p + rest), |before|, first, p, rest);
    if ps[1..] != [] {
      ParseConcat(before + p, ps[1..], false);
      assert |before + p| == |before| + |p|;
    } else {
      FlattenNone();
      assert [Entry(p[1], |before|, |p|)] + [] == [Entry(p[1], |before|, |p|)];
    }
  }

  /** Self-describing packets laid end to end, a report first, parse to exactly themselves. */
  lemma ParseOfPackets(ps: seq<seq<Byte>>)
    requires ps != [] && AllSelfDescribing(ps) && (ps[0][1] == SR || ps[0][1] == RR)
    ensures Parse(Flatten(ps)) == Some(EntriesOf(ps, 0))
  {
    ParseConcat([], ps, true);
    assert [] + Flatten(ps) == Flatten(ps);
  }

  // ---------- packets with a header of the builder's making ----------

  const MAX_PACKET := 0x4_0000

  /** A packet that starts with the header the builder writes for its size. */
  predicate Headed(p: seq<Byte>, ptype: Byte, count: nat) {
    && count <= MAX_COUNT && |p| >= COMMON_HEADER && |p| % 4 == 0
    && p[..COMMON_HEADER] == Header(ptype, count, |p|)
  }

  /** The 16-bit length field is right exactly for packets of at most 2^18 bytes. */
  lemma HeaderTellsTruth(p: seq<Byte>, ptype: Byte, count: nat)
    requires Headed(p, ptype, count)
    ensures p[1] == ptype && Count(p) == count && Version(p) == 2 && !Padding(p)
    ensures SelfDescribing(p) <==> |p| <= MAX_PACKET
  {
    var h, words := Header(ptype, count, |p|), |p| / 4;
    assert p[0] == h[0] && p[1] == h[1];
    assert p[2..4] == Be16((words - 1) % 0x1_0000) by {
      assert p[2] == h[2] && p[3] == h[3];
    }
    WordAt16(p, 2, (words - 1) % 0x1_0000);
    hide Be16, FromBe16, Header;
    assert ClaimedLength(p) == ((words - 1) % 0x1_0000 + 1) * 4;
  }

  ghost predicate SomeHeader(p: seq<Byte>) {
    exists t: Byte, c: nat :: Headed(p, t, c)
  }

  ghost predicate AllHeaded(ps: seq<seq<Byte>>) {
    ps == [] || (SomeHeader(ps[0]) && AllHeaded(ps[1..]))
  }

  predicate AllFit(ps: seq<seq<Byte>>) {
    ps == [] || (|ps[0]| <= MAX_PACKET && AllFit(ps[1..]))
  }

  lemma {:induction false} HeadedConcat(ps: seq<seq<Byte>>, qs: seq<seq<Byte>>)
    requires AllHeaded(ps) && AllHeaded(qs)
    ensures AllHeaded(ps + qs)
    decreases |ps|
  {
    if ps == [] {
      assert ps + qs == qs;
    } else {
      HeadedConcat(ps[1..], qs);
      assert (ps + qs)[1..] == ps[1..] + qs;
    }
  }

  lemma {:induction false} FitMeansSelfDescribing(ps: seq<seq<Byte>>)
    requires AllHeaded(ps)
    ensures AllFit(ps) <==> AllSelfDescribing(ps)
    decreases |ps|
  {
    if ps != [] {
      var t, c :| Headed(ps[0], t, c);
      HeaderTellsTruth(ps[0], t, c);
      FitMeansSelfDescribing(ps[1..]);
    }
  }

  /** What a successful parse says of its first packet and of the rest. */
  lemma ParsePeels(data: seq<Byte>, at: nat, first: bool, es: seq<Entry>)
    requires at + COMMON_HEADER <= |data| && ParseFrom(data, at, first) == Some(es)
    ensures es != [] && es[0].length == ClaimedLength(data[at..])
    ensures |es| > 1 ==>
              && at + es[0].length + COMMON_HEADER <= |data|
              && ParseFrom(data, at + es[0].length, false) == Some(es[1..])
  {
    hide ClaimedLength, Version, Padding;
  }

  /** If the parser finds the packets as they were laid out, their length fields were right. */
  lemma {:induction false} ParsedMeansSelfDescribing(before: seq<Byte>, ps: seq<seq<Byte>>, first: bool)
    requires ps != [] && AllHeaded(ps) && |Flatten(ps)| >= COMMON_HEADER
    requires ParseFrom(before + Flatten(ps), |before|, first) == Some(EntriesOf(ps, |before|))
    ensures AllSelfDescribing(ps)
    decreases |ps|
  {
    hide ClaimedLength, Version, Padding, Flatten, Headed, ParseFrom;
    var p, rest := ps[0], Flatten(ps[1..]);
    FlattenCons(ps);
    var t, c :| Headed(p, t, c);
    HeaderTellsTruth(p, t, c);
    LongEnough(p, t, c);
    var data, es := before + Flatten(ps), EntriesOf(ps, |before|);
    assert data[|before|..] == p + rest;
    ClaimOfPrefix(p, rest);
    ParsePeels(data, |before|, first, es);
    assert es[0].length == |p| && es[1..] == EntriesOf(ps[1..], |before + p|);
    if ps[1..] != [] {
      ConcatAssoc(before, p, rest);
      ParsedMeansSelfDescribing(before + p, ps[1..], false);
    }
  }

  lemma LongEnough(p: seq<Byte>, t: Byte, c: nat)
    requires Headed(p, t, c)
    ensures |p| >= COMMON_HEADER
  {
  }
}
