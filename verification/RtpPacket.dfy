/** RTP packets (rtppacket.cpp, section 5.1 of RFC 3550): what BuildPacket writes, what ParseRawPacket reads,
    and that the two are inverse. */
module RtpPacket {
  import opened Bytes

  const MAX_CSRCS: nat := 15
  const HEADER_SIZE: nat := 12
  const VERSION: nat := 2

  /** The data of a header extension comes in 32-bit words, at most 65535 of them. */
  type ExtensionData = d: seq<Byte> | |d| % 4 == 0 && |d| / 4 < 0x1_0000 witness []

  datatype Extension = Extension(id: U16, data: ExtensionData)

  datatype Content = Content(
    payloadtype: Byte,
    marker: bool,
    seqnr: U16,
    timestamp: U32,
    ssrc: U32,
    csrcs: seq<U32>,
    extension: Option<Extension>,
    payload: seq<Byte>
  )

  datatype Status = Ok | TooManyCsrcs | BadPayloadType | DataExceedsMaxSize | InvalidPacket

  // ----- the wire form -----

  function ExtensionBytes(e: Option<Extension>): (b: seq<Byte>)
    ensures |b| == if e.None? then 0 else 4 + |e.value.data|
  {
    if e.None? then [] else Be16(e.value.id) + Be16(|e.value.data| / 4) + e.value.data
  }

  function FixedHeader(c: Content): (b: seq<Byte>)
    requires |c.csrcs| <= MAX_CSRCS && c.payloadtype < 128
    ensures |b| == HEADER_SIZE
  {
    [64 * VERSION + (if c.extension.Some? then 16 else 0) + |c.csrcs|,
     (if c.marker then 128 else 0) + c.payloadtype as int]
    + Be16(c.seqnr) + Be32(c.timestamp) + Be32(c.ssrc)
  }

  function Wire(c: Content): (b: seq<Byte>)
    requires |c.csrcs| <= MAX_CSRCS && c.payloadtype < 128
    ensures |b| == WireLength(c)
  {
    FixedHeader(c) + Be32All(c.csrcs) + ExtensionBytes(c.extension) + c.payload
  }

  function WireLength(c: Content): nat {
    HEADER_SIZE + 4 * |c.csrcs| + (if c.extension.None? then 0 else 4 + |c.extension.value.data|) + |c.payload|
  }

  /** A limit of zero is none. */
  function BuildStatus(c: Content, maxsize: nat): Status {
    if |c.csrcs| > MAX_CSRCS then TooManyCsrcs
    else if c.payloadtype > 127 || c.payloadtype == 72 || c.payloadtype == 73 then BadPayloadType
    else if maxsize > 0 && WireLength(c) > maxsize then DataExceedsMaxSize
    else Ok
  }

  // ----- parsing -----

  function CsrcsAt(data: seq<Byte>, off: nat, n: nat): (r: seq<U32>)
    requires off + 4 * n <= |data|
    ensures |r| == n
    decreases n
  {
    if n == 0 then [] else [FromBe32(data, off)] + CsrcsAt(data, off + 4, n - 1)
  }

  /** Bytes of padding; None when the padding bit is set over a count of zero. */
  function Padding(data: seq<Byte>): Option<nat>
    requires |data| >= HEADER_SIZE
  {
    if data[0] / 32 % 2 == 0 then Some(0)
    else if data[|data| - 1] == 0 then None else Some(data[|data| - 1] as int)
  }

  /** Size of the header extension at an offset; an extension cut off by the end of the packet fails however
      long it claims to be. */
  function ExtensionSize(data: seq<Byte>, off: nat): Option<nat>
    requires |data| >= HEADER_SIZE
  {
    if data[0] / 16 % 2 == 0 then Some(0)
    else if off + 4 > |data| then None else Some(4 + 4 * FromBe16(data, off + 2))
  }

  function LooksLikeRtcp(b: Byte): bool {
    b == 200 || b == 201
  }

  function ExtensionAt(data: seq<Byte>, off: nat, size: nat): Option<Extension>
    requires off + size <= |data| && (size > 0 ==> size >= 4 && size % 4 == 0 && size / 4 <= 0x1_0000)
  {
    if size == 0 then None else Some(Extension(FromBe16(data, off), data[off + 4..off + size]))
  }

  function Parse(data: seq<Byte>): (r: Option<Content>)
    ensures r.Some? ==> |r.value.csrcs| <= MAX_CSRCS && r.value.payloadtype < 128
  {
    if |data| < HEADER_SIZE || data[0] / 64 != VERSION || LooksLikeRtcp(data[1]) then None
    else
      var csrccount := data[0] % 16;
      var off := HEADER_SIZE + 4 * csrccount;
      var pad, ext := Padding(data), ExtensionSize(data, off);
      if pad.None? || ext.None? || off + ext.value + pad.value > |data| then None
      else
        Some(Content(data[1] % 128, data[1] >= 128, FromBe16(data, 2), FromBe32(data, 4), FromBe32(data, 8),
                     CsrcsAt(data, HEADER_SIZE, csrccount),
                     ExtensionAt(data, off, ext.value),
                     data[off + ext.value..|data| - pad.value]))
  }

  lemma {:induction false} CsrcsRead(data: seq<Byte>, off: nat, csrcs: seq<U32>)
    requires off + 4 * |csrcs| <= |data| && data[off..off + 4 * |csrcs|] == Be32All(csrcs)
    ensures CsrcsAt(data, off, |csrcs|) == csrcs
    decreases |csrcs|
  {
    if csrcs != [] {
      var a, b := Be32(csrcs[0]), Be32All(csrcs[1..]);
      assert b + [] == b;
      Pieces(data, off, a, b, []);
      assert a + b + [] == Be32All(csrcs);
      WordAt32(data, off, csrcs[0]);
      CsrcsRead(data, off + 4, csrcs[1..]);
    }
  }

  lemma {:induction false} CsrcsWritten(data: seq<Byte>, off: nat, n: nat)
    requires off + 4 * n <= |data|
    ensures Be32All(CsrcsAt(data, off, n)) == data[off..off + 4 * n]
    decreases n
  {
    if n > 0 {
      CsrcsWritten(data, off + 4, n - 1);
      WordBytes32(data, off);
      assert CsrcsAt(data, off, n)[1..] == CsrcsAt(data, off + 4, n - 1);
      assert data[off..off + 4 * n] == data[off..off + 4] + data[off + 4..off + 4 * n];
    }
  }

  lemma WordBytes32(data: seq<Byte>, off: nat)
    requires off + 4 <= |data|
    ensures Be32(FromBe32(data, off)) == data[off..off + 4]
  {
    var hi := data[off] as int * 0x100 + data[off + 1] as int;
    var lo := data[off + 2] as int * 0x100 + data[off + 3] as int;
    assert FromBe32(data, off) == hi * 0x1_0000 + lo;
  }

  lemma WordBytes16(data: seq<Byte>, off: nat)
    requires off + 2 <= |data|
    ensures Be16(FromBe16(data, off)) == data[off..off + 2]
  {
  }

  lemma HeaderReads(c: Content, data: seq<Byte>)
    requires |c.csrcs| <= MAX_CSRCS && c.payloadtype < 128
    requires |data| >= HEADER_SIZE && data[..HEADER_SIZE] == FixedHeader(c)
    ensures data[0] / 64 == VERSION && data[0] / 32 % 2 == 0 && data[0] % 16 == |c.csrcs|
    ensures data[0] / 16 % 2 == if c.extension.Some? then 1 else 0
    ensures data[1] % 128 == c.payloadtype && (data[1] >= 128 <==> c.marker)
    ensures LooksLikeRtcp(data[1]) <==> c.marker && (c.payloadtype == 72 || c.payloadtype == 73)
    ensures FromBe16(data, 2) == c.seqnr && FromBe32(data, 4) == c.timestamp && FromBe32(data, 8) == c.ssrc
  {
    var h := data[..HEADER_SIZE];
    assert h[0] == data[0] && h[1] == data[1];
    HeaderParts(c);
    SubSlice(data, 0, h, 2, 4);
    SubSlice(data, 0, h, 4, 8);
    SubSlice(data, 0, h, 8, 12);
    WordAt16(data, 2, c.seqnr);
    WordAt32(data, 4, c.timestamp);
    WordAt32(data, 8, c.ssrc);
  }

  lemma HeaderParts(c: Content)
    requires |c.csrcs| <= MAX_CSRCS && c.payloadtype < 128
    ensures var h := FixedHeader(c);
            && h[0] == 64 * VERSION + (if c.extension.Some? then 16 else 0) + |c.csrcs|
            && h[1] == (if c.marker then 128 else 0) + c.payloadtype as int
            && h[2..4] == Be16(c.seqnr) && h[4..8] == Be32(c.timestamp) && h[8..12] == Be32(c.ssrc)
  {
    hide Be16, Be32;
    var f := [64 * VERSION + (if c.extension.Some? then 16 else 0) + |c.csrcs|,
              (if c.marker then 128 else 0) + c.payloadtype as int];
    Sections(f, Be16(c.seqnr), Be32(c.timestamp), Be32(c.ssrc));
  }

  lemma ExtensionReads(data: seq<Byte>, off: nat, e: Option<Extension>)
    requires off + |ExtensionBytes(e)| <= |data| && data[off..off + |ExtensionBytes(e)|] == ExtensionBytes(e)
    ensures ExtensionAt(data, off, |ExtensionBytes(e)|) == e
    ensures e.Some? ==> FromBe16(data, off + 2) == |e.value.data| / 4
  {
    if e.Some? {
      Pieces(data, off, Be16(e.value.id), Be16(|e.value.data| / 4), e.value.data);
      WordAt16(data, off, e.value.id);
      WordAt16(data, off + 2, |e.value.data| / 4);
    }
  }

  lemma NoPadding(data: seq<Byte>)
    requires |data| >= HEADER_SIZE && data[0] / 32 % 2 == 0
    ensures Padding(data) == Some(0)
  {
  }

  /** What parsing an unpadded packet comes to. */
  lemma ParsedAs(data: seq<Byte>, count: nat, size: nat)
    requires |data| >= HEADER_SIZE && data[0] / 64 == VERSION && Padding(data) == Some(0) && !LooksLikeRtcp(data[1])
    requires data[0] % 16 == count && ExtensionSize(data, HEADER_SIZE + 4 * count) == Some(size)
    requires HEADER_SIZE + 4 * count + size <= |data|
    ensures var off := HEADER_SIZE + 4 * count;
            Parse(data) == Some(Content(data[1] % 128, data[1] >= 128, FromBe16(data, 2), FromBe32(data, 4),
                                        FromBe32(data, 8), CsrcsAt(data, HEADER_SIZE, count),
                                        ExtensionAt(data, off, size), data[off + size..|data|]))
  {
    hide CsrcsAt, ExtensionAt, ExtensionSize, FromBe16, FromBe32, LooksLikeRtcp, Padding;
    SizeInWords(data, HEADER_SIZE + 4 * count, size);
  }

  lemma SizeInWords(data: seq<Byte>, off: nat, size: nat)
    requires |data| >= HEADER_SIZE && ExtensionSize(data, off) == Some(size)
    ensures size > 0 ==> size >= 4 && size % 4 == 0 && size / 4 <= 0x1_0000
  {
  }

  /** Whatever BuildPacket accepts, parsing its bytes gives back: every header field, the CSRCs in order, the
      extension and the payload. */
  lemma BuildThenParse(c: Content, maxsize: nat)
    requires BuildStatus(c, maxsize).Ok?
    ensures Parse(Wire(c)) == Some(c)
  {
    hide FixedHeader, Be32All, ExtensionBytes, ExtensionAt, CsrcsAt, Parse, FromBe16, FromBe32, LooksLikeRtcp;
    var data := Wire(c);
    var h, s, e := FixedHeader(c), Be32All(c.csrcs), ExtensionBytes(c.extension);
    Sections(h, s, e, c.payload);
    HeaderReads(c, data);
    CsrcsRead(data, HEADER_SIZE, c.csrcs);
    var off := HEADER_SIZE + |s|;
    ExtensionReads(data, off, c.extension);
    assert c.extension.Some? ==> |c.extension.value.data| == 4 * (|c.extension.value.data| / 4);
    assert ExtensionSize(data, off) == Some(|e|);
    NoPadding(data);
    ParsedAs(data, |c.csrcs|, |e|);
    assert data[off + |e|..|data|] == c.payload;
  }

  lemma HeaderWritten(c: Content, data: seq<Byte>)
    requires |c.csrcs| <= MAX_CSRCS && c.payloadtype < 128 && |data| >= HEADER_SIZE
    requires data[0] / 64 == VERSION && data[0] / 32 % 2 == 0 && data[0] % 16 == |c.csrcs|
    requires data[0] / 16 % 2 == if c.extension.Some? then 1 else 0
    requires data[1] % 128 == c.payloadtype && (data[1] >= 128 <==> c.marker)
    requires FromBe16(data, 2) == c.seqnr && FromBe32(data, 4) == c.timestamp && FromBe32(data, 8) == c.ssrc
    ensures FixedHeader(c) == data[..HEADER_SIZE]
  {
    WordBytes16(data, 2);
    WordBytes32(data, 4);
    WordBytes32(data, 8);
    assert data[..2] == [data[0], data[1]];
    assert data[..HEADER_SIZE] == data[..2] + data[2..4] + data[4..8] + data[8..12];
  }

  lemma Rejoined(data: seq<Byte>, a: nat, b: nat, c: nat, d: nat)
    requires a <= b <= c <= d <= |data|
    ensures data[a..d] == data[a..b] + data[b..c] + data[c..d]
  {
  }

  lemma ExtensionWritten(data: seq<Byte>, off: nat, size: nat)
    requires off + size <= |data| && (size > 0 ==> size >= 4 && size == 4 + 4 * FromBe16(data, off + 2))
    ensures ExtensionBytes(ExtensionAt(data, off, size)) == data[off..off + size]
  {
    hide FromBe16, Be16;
    if size > 0 {
      WordBytes16(data, off);
      WordBytes16(data, off + 2);
      Rejoined(data, off, off + 2, off + 4, off + size);
    }
  }

  /** The other way round: a packet that parses and is not padded is exactly the wire form of what was read,
      so no two such packets read alike. */
  lemma ParseThenBuild(data: seq<Byte>)
    requires Parse(data).Some? && data[0] / 32 % 2 == 0
    ensures Wire(Parse(data).value) == data
  {
    hide FixedHeader, Be32All, ExtensionBytes, ExtensionAt, CsrcsAt, FromBe16, FromBe32, LooksLikeRtcp;
    var c := Parse(data).value;
    var off := HEADER_SIZE + 4 * (data[0] % 16);
    var size := ExtensionSize(data, off).value;
    Presence(data, off, size);
    HeaderWritten(c, data);
    CsrcsWritten(data, HEADER_SIZE, data[0] % 16);
    ExtensionWritten(data, off, size);
    Quarters(data, HEADER_SIZE, off, off + size);
  }

  lemma Quarters(data: seq<Byte>, a: nat, b: nat, c: nat)
    requires a <= b <= c <= |data|
    ensures data == data[..a] + data[a..b] + data[b..c] + data[c..]
  {
  }

  lemma Presence(data: seq<Byte>, off: nat, size: nat)
    requires |data| >= HEADER_SIZE && ExtensionSize(data, off) == Some(size) && off + size <= |data|
    ensures size > 0 ==> size >= 4 && size % 4 == 0 && size / 4 <= 0x1_0000
    ensures ExtensionAt(data, off, size).Some? <==> data[0] / 16 % 2 == 1
  {
  }

  // ----- exactly which packets parse, and as what -----

  /** Size of the header extension, as far as it can be read. */
  function ExtensionLength(data: seq<Byte>, off: nat): nat
    requires |data| >= 12
  {
    if data[0] / 16 % 2 == 1 && off + 4 <= |data| then 4 + 4 * Read2(data, off + 2) else 0
  }

  function PadLength(data: seq<Byte>): nat
    requires |data| >= 12
  {
    if data[0] / 32 % 2 == 1 then data[|data| - 1] else 0
  }

  /** What the receiver demands of a packet, bit by bit: version 2, no second byte of an RTCP sender or receiver
      report, a padding count other than zero, and room for the CSRCs, the extension and the padding. */
  predicate WellFormed(data: seq<Byte>) {
    && |data| >= 12 && data[0] / 64 == 2 && data[1] != 200 && data[1] != 201
    && var off := 12 + 4 * (data[0] % 16);
       && (data[0] / 32 % 2 == 1 ==> data[|data| - 1] > 0)
       && (data[0] / 16 % 2 == 1 ==> off + 4 <= |data|)
       && off + ExtensionLength(data, off) + PadLength(data) <= |data|
  }

  /** The content of such a packet, field by field; the padding is no part of it. */
  predicate ReadsAs(data: seq<Byte>, c: Content)
    requires WellFormed(data)
  {
    var n, off := data[0] % 16, 12 + 4 * (data[0] % 16);
    var start := off + ExtensionLength(data, off);
    && c.payloadtype == data[1] % 128 && (c.marker <==> data[1] >= 128)
    && c.seqnr == Read2(data, 2) && c.timestamp == Read4(data, 4) && c.ssrc == Read4(data, 8)
    && |c.csrcs| == n && (forall k :: 0 <= k < n ==> c.csrcs[k] == Read4(data, 12 + 4 * k))
    && (c.extension.Some? <==> data[0] / 16 % 2 == 1)
    && (c.extension.Some? ==>
          c.extension.value.id == Read2(data, off) && c.extension.value.data == data[off + 4..start])
    && c.payload == data[start..|data| - PadLength(data)]
  }

  lemma {:induction false} CsrcsAre(data: seq<Byte>, off: nat, n: nat)
    requires off + 4 * n <= |data|
    ensures forall k :: 0 <= k < n ==> CsrcsAt(data, off, n)[k] == Read4(data, off + 4 * k)
    decreases n
  {
    if n > 0 {
      CsrcsAre(data, off + 4, n - 1);
      DigitsRead(data, off);
      forall k | 0 <= k < n ensures CsrcsAt(data, off, n)[k] == Read4(data, off + 4 * k) {
        if k > 0 {
          assert CsrcsAt(data, off, n)[k] == CsrcsAt(data, off + 4, n - 1)[k - 1];
        }
      }
    }
  }

  lemma SizesRead(data: seq<Byte>, off: nat)
    requires |data| >= 12
    ensures Padding(data).Some? <==> (data[0] / 32 % 2 == 1 ==> data[|data| - 1] > 0)
    ensures Padding(data).Some? ==> Padding(data).value == PadLength(data)
    ensures ExtensionSize(data, off).Some? <==> (data[0] / 16 % 2 == 1 ==> off + 4 <= |data|)
    ensures ExtensionSize(data, off).Some? ==> ExtensionSize(data, off).value == ExtensionLength(data, off)
  {
  }

  /** A packet parses if and only if it is well formed, and then as its bytes say. */
  lemma ParsesExactly(data: seq<Byte>)
    ensures Parse(data).Some? <==> WellFormed(data)
    ensures WellFormed(data) ==> ReadsAs(data, Parse(data).value)
  {
    hide Padding, ExtensionSize, ExtensionLength, PadLength, CsrcsAt, FromBe16, FromBe32, Read2, Read4;
    if |data| >= 12 {
      var off := 12 + 4 * (data[0] % 16);
      SizesRead(data, off);
      if WellFormed(data) {
        var size := ExtensionLength(data, off);
        Presence(data, off, size);
        CsrcsAre(data, 12, data[0] % 16);
        DigitsRead(data, 2);
        DigitsRead(data, 4);
        DigitsRead(data, 8);
        DigitsRead(data, off);
      }
    }
  }

  /** Two contents read from the same packet are the same. */
  lemma ReadsAsOne(data: seq<Byte>, c: Content, d: Content)
    requires WellFormed(data) && ReadsAs(data, c) && ReadsAs(data, d)
    ensures c == d
  {
    hide WellFormed, Read2, Read4, PadLength, ExtensionLength;
    assert c.csrcs == d.csrcs;
    assert c.extension == d.extension;
  }

  /** The packet with its padding bit set and padding put behind it, which ends in its own length. */
  function Padded(data: seq<Byte>, fill: seq<Byte>): (p: seq<Byte>)
    requires |data| >= 12 && data[0] / 32 % 2 == 0 && |fill| < 255
    ensures |p| == |data| + |fill| + 1 && p[0] == data[0] + 32 && p[|p| - 1] == |fill| + 1
    ensures forall k :: 1 <= k < |data| ==> p[k] == data[k]
  {
    [data[0] + 32] + data[1..] + fill + [|fill| + 1]
  }

  lemma SameFields(data: seq<Byte>, p: seq<Byte>, off: nat)
    requires 12 <= |data| <= |p| && (forall k :: 1 <= k < |data| ==> p[k] == data[k])
    requires p[0] / 16 % 2 == data[0] / 16 % 2 && (data[0] / 16 % 2 == 1 ==> off + 4 <= |data|)
    ensures ExtensionLength(p, off) == ExtensionLength(data, off)
  {
  }

  lemma FirstBytes(b: Byte)
    requires b / 32 % 2 == 0
    ensures b + 32 < 256 && (b + 32) / 32 % 2 == 1 && (b + 32) % 16 == b % 16
    ensures (b + 32) / 64 == b / 64 && (b + 32) / 16 % 2 == b / 16 % 2
  {
  }

  /** Padding does not show: a packet padded with any 1 to 255 bytes, the last of them their number, reads as
      what it was without them. */
  lemma PaddingIgnored(data: seq<Byte>, fill: seq<Byte>)
    requires Parse(data).Some? && data[0] / 32 % 2 == 0 && |fill| < 255
    ensures |data| >= 12 && Parse(Padded(data, fill)) == Parse(data)
  {
    hide Parse, Padded, ExtensionLength, Read2, Read4;
    ParsesExactly(data);
    var p := Padded(data, fill);
    var off := 12 + 4 * (data[0] % 16);
    FirstBytes(data[0]);
    SameFields(data, p, off);
    ParsesExactly(p);
    PaddedReads(data, p, off, Parse(data).value);
    ReadsAsOne(p, Parse(p).value, Parse(data).value);
  }

  lemma PaddedReads(data: seq<Byte>, p: seq<Byte>, off: nat, c: Content)
    requires WellFormed(data) && data[0] / 32 % 2 == 0 && ReadsAs(data, c) && off == 12 + 4 * (data[0] % 16)
    requires WellFormed(p) && |p| > |data| && PadLength(p) == |p| - |data|
    requires p[0] % 16 == data[0] % 16 && p[0] / 16 % 2 == data[0] / 16 % 2
    requires forall k :: 1 <= k < |data| ==> p[k] == data[k]
    requires ExtensionLength(p, off) == ExtensionLength(data, off)
    ensures ReadsAs(p, c)
  {
    var start := off + ExtensionLength(data, off);
    assert data[start..|data|] == p[start..|data|];
    if c.extension.Some? {
      assert data[off + 4..start] == p[off + 4..start];
    }
  }

  /** Payload types 72 and 73 are refused and no other below 128: exactly those that, with the marker bit set,
      would not come back. */
  lemma RefusedIfAmbiguous(c: Content)
    requires |c.csrcs| <= 15 && c.payloadtype < 128
    ensures var d := c.(marker := true); BuildStatus(c, 0).Ok? <==> Parse(Wire(d)) == Some(d)
    ensures BuildStatus(c, 0).Ok? <==> c.payloadtype != 72 && c.payloadtype != 73
  {
    hide Parse, Wire;
    var d := c.(marker := true);
    if BuildStatus(d, 0).Ok? {
      BuildThenParse(d, 0);
    } else {
      SecondByte(d);
      ParsesExactly(Wire(d));
    }
  }

  lemma SecondByte(c: Content)
    requires |c.csrcs| <= 15 && c.payloadtype < 128
    ensures |Wire(c)| >= 12 && Wire(c)[1] == (if c.marker then 128 else 0) + c.payloadtype as int
  {
    hide Be16, Be32, Be32All, ExtensionBytes;
  }

  /** What is accepted fits the limit, and what fits is accepted. */
  lemma AcceptedIfFits(c: Content, maxsize: nat)
    requires BuildStatus(c, 0).Ok?
    ensures BuildStatus(c, maxsize).Ok? <==> maxsize == 0 || |Wire(c)| <= maxsize
  {
    hide Wire;
  }
}
