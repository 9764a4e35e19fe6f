/** The objects of rtppacket.cpp and rtppacketbuilder.cpp: a packet filled by building or parsing, and the
    builder that keeps the CSRC list, the sequence number, the timestamp and the send counters. */
module RtpPacketBuilder {
  import opened Arithmetic
  import opened Bytes
  import opened RtpPacket

  datatype Fields = Fields(
    hasextension: bool,
    extid: U16,
    extension: nat,
    extensionlength: nat,
    hasmarker: bool,
    numcsrcs: nat,
    payloadtype: Byte,
    extseqnr: U32,
    timestamp: U32,
    ssrc: U32,
    packetlength: nat,
    payload: nat,
    payloadlength: nat
  )

  /** The fields, read against the bytes of the packet, say what the content c says. */
  ghost predicate Describes(data: seq<Byte>, f: Fields, c: Content) {
    && HEADER_SIZE + 4 * f.numcsrcs <= f.packetlength <= |data|
    && f.payload + f.payloadlength <= f.packetlength
    && f.payloadtype == c.payloadtype && f.hasmarker == c.marker && f.extseqnr == c.seqnr
    && f.timestamp == c.timestamp && f.ssrc == c.ssrc
    && CsrcsAt(data, HEADER_SIZE, f.numcsrcs) == c.csrcs
    && f.hasextension == c.extension.Some?
    && (f.hasextension ==> f.extension + f.extensionlength <= f.packetlength && f.extid == c.extension.value.id
                           && data[f.extension..f.extension + f.extensionlength] == c.extension.value.data)
    && data[f.payload..f.payload + f.payloadlength] == c.payload
  }

  lemma ParsedDescribed(data: seq<Byte>, header: nat, size: nat, pad: nat, f: Fields)
    requires Parse(data).Some? && |data| >= HEADER_SIZE && header == HEADER_SIZE + 4 * (data[0] % 16)
    requires header + size + pad <= |data| && ExtensionSize(data, header) == Some(size) && Padding(data) == Some(pad)
    requires f.payloadtype == data[1] % 128 && f.hasmarker == (data[1] / 128 != 0)
    requires f.extseqnr == FromBe16(data, 2) && f.timestamp == FromBe32(data, 4) && f.ssrc == FromBe32(data, 8)
    requires f.numcsrcs == data[0] % 16 && f.hasextension == (data[0] / 16 % 2 != 0)
    requires f.hasextension ==> f.extid == ExtensionId(data, header) && f.extension == header + 4
                                && f.extensionlength == if size < 4 then 0 else size - 4
    requires f.packetlength == |data| && f.payload == header + size && f.payloadlength == |data| - pad - (header + size)
    ensures Describes(data, f, Parse(data).value)
  {
    hide CsrcsAt, Padding, FromBe16, FromBe32;
  }

  function ExtensionId(data: seq<Byte>, off: nat): U16 {
    if off + 2 <= |data| then FromBe16(data, off) else 0
  }

  class RTPPacket {
    var hasextension: bool
    var extid: U16
    var extension: nat
    var extensionlength: nat
    var hasmarker: bool
    var numcsrcs: nat
    var payloadtype: Byte
    var extseqnr: U32
    var timestamp: U32
    var ssrc: U32
    var packet: array?<Byte>
    var packetlength: nat
    var payload: nat
    var payloadlength: nat

    constructor ()
      ensures packet == null && packetlength == 0 && payloadlength == 0 && numcsrcs == 0 && extseqnr == 0
      ensures !hasextension && !hasmarker && payloadtype == 0 && timestamp == 0 && ssrc == 0
    {
      hasextension, extid, extension, extensionlength, hasmarker, numcsrcs := false, 0, 0, 0, false, 0;
      payloadtype, extseqnr, timestamp, ssrc := 0, 0, 0, 0;
      packet, packetlength, payload, payloadlength := null, 0, 0, 0;
    }

    function View(): Fields
      reads this
    {
      Fields(hasextension, extid, extension, extensionlength, hasmarker, numcsrcs, payloadtype, extseqnr,
             timestamp, ssrc, packetlength, payload, payloadlength)
    }

    /** The accessors show the content c. */
    ghost predicate Shows(c: Content)
      reads this, packet
    {
      packet != null && Describes(packet[..], View(), c)
    }

    method GetCSRC(num: nat) returns (csrc: U32)
      requires packet != null && HEADER_SIZE + 4 * numcsrcs <= packet.Length
      ensures csrc == if num < numcsrcs then CsrcsAt(packet[..], HEADER_SIZE, numcsrcs)[num] else 0
    {
      if num >= numcsrcs {
        return 0;
      }
      CsrcsIndex(packet[..], HEADER_SIZE, numcsrcs, num);
      return FromBe32(packet[..], HEADER_SIZE + 4 * num);
    }

    static lemma {:induction false} CsrcsIndex(data: seq<Byte>, off: nat, n: nat, i: nat)
      requires off + 4 * n <= |data| && i < n
      ensures CsrcsAt(data, off, n)[i] == FromBe32(data, off + 4 * i)
      decreases n
    {
      if i > 0 {
        CsrcsIndex(data, off + 4, n - 1, i - 1);
      }
    }

    /** The checks: where the CSRC list ends, how long the extension is and how much padding there is. The
        source reads the length of an extension even where the packet ends before it; whatever it finds there
        the payload length comes out negative, so the model leaves that read out. */
    static method Examine(data: seq<Byte>) returns (ok: bool, header: nat, size: nat, pad: nat)
      ensures ok <==> Parse(data).Some?
      ensures ok ==> |data| >= HEADER_SIZE && header == HEADER_SIZE + 4 * (data[0] % 16)
      ensures ok ==> header + size + pad <= |data|
                     && ExtensionSize(data, header) == Some(size) && Padding(data) == Some(pad)
    {
      hide CsrcsAt, ExtensionAt;
      ok, header, size, pad := false, 0, 0, 0;
      var packetlen := |data|;
      if packetlen < HEADER_SIZE {
        return;
      }
      if data[0] / 64 != VERSION {
        return;
      }
      var marker := data[1] / 128 != 0;
      var pt := data[1] % 128;
      if marker {
        if pt == 72 {
          return;
        }
        if pt == 73 {
          return;
        }
      }
      assert !LooksLikeRtcp(data[1]);
      header := HEADER_SIZE + data[0] % 16 * 4;
      if data[0] / 32 % 2 != 0 {
        pad := data[packetlen - 1] as int;
        if pad <= 0 {
          return;
        }
      }
      if data[0] / 16 % 2 != 0 {
        size := 4;
        if header + size <= packetlen {
          size := size + FromBe16(data, header + 2) * 4;
        }
      }
      ok := header + size + pad <= packetlen;
    }

    method ParseRawPacket(rawpack: array<Byte>, isrtp: bool) returns (status: Status)
      modifies this
      ensures status == if isrtp && Parse(rawpack[..]).Some? then Ok else InvalidPacket
      ensures status.Ok? ==> packet == rawpack && packetlength == rawpack.Length && Shows(Parse(rawpack[..]).value)
    {
      hide Padding, ExtensionSize, Parse, FromBe16, FromBe32, Describes;
      if !isrtp {
        return InvalidPacket;
      }
      var data := rawpack[..];
      var ok, header, size, pad := Examine(data);
      if !ok {
        return InvalidPacket;
      }
      Fill(rawpack, data, header, size, pad);
      return Ok;
    }

    /** All members are set once the packet is known to be valid. */
    method Fill(rawpack: array<Byte>, data: seq<Byte>, header: nat, size: nat, pad: nat)
      requires data == rawpack[..]
      requires Parse(data).Some? && |data| >= HEADER_SIZE && header == HEADER_SIZE + 4 * (data[0] % 16)
      requires header + size + pad <= |data| && ExtensionSize(data, header) == Some(size) && Padding(data) == Some(pad)
      modifies this
      ensures packet == rawpack && packetlength == rawpack.Length && Shows(Parse(data).value)
    {
      hide Padding, ExtensionSize, Parse, FromBe16, FromBe32, Describes, ExtensionId;
      var gotextension := data[0] / 16 % 2 != 0;
      var f := Fields(gotextension,
                      if gotextension then ExtensionId(data, header) else extid,
                      if gotextension then header + 4 else extension,
                      if gotextension && size >= 4 then size - 4 else 0,
                      data[1] / 128 != 0, data[0] % 16, data[1] % 128,
                      FromBe16(data, 2), FromBe32(data, 4), FromBe32(data, 8),
                      |data|, header + size, |data| - pad - (header + size));
      ParsedDescribed(data, header, size, pad, f);
      Set(f);
      packet := rawpack;
    }

    method Set(f: Fields)
      modifies this
      ensures View() == f && packet == old(packet)
    {
      hasextension, extid, extension, extensionlength := f.hasextension, f.extid, f.extension, f.extensionlength;
      hasmarker, numcsrcs, payloadtype, extseqnr := f.hasmarker, f.numcsrcs, f.payloadtype, f.extseqnr;
      timestamp, ssrc := f.timestamp, f.ssrc;
      packetlength, payload, payloadlength := f.packetlength, f.payload, f.payloadlength;
    }

    method PutHeader(mem: array<Byte>, c: Content)
      requires mem.Length >= HEADER_SIZE && |c.csrcs| <= MAX_CSRCS && c.payloadtype < 128
      modifies mem
      ensures mem[..] == Splice(old(mem[..]), 0, FixedHeader(c))
    {
      hide Splice, Be16, Be32;
      ghost var was := mem[..];
      var flags: seq<Byte> := [64 * VERSION + (if c.extension.Some? then 16 else 0) + |c.csrcs|,
                               (if c.marker then 128 else 0) + c.payloadtype as int];
      Copy(mem, 0, flags);
      Copy(mem, 2, Be16(c.seqnr));
      SpliceTwice(was, 0, flags, Be16(c.seqnr));
      Copy(mem, 4, Be32(c.timestamp));
      SpliceTwice(was, 0, flags + Be16(c.seqnr), Be32(c.timestamp));
      Copy(mem, 8, Be32(c.ssrc));
      SpliceTwice(was, 0, flags + Be16(c.seqnr) + Be32(c.timestamp), Be32(c.ssrc));
    }

    method PutCsrcs(mem: array<Byte>, pos: nat, csrcs: seq<U32>)
      requires pos + 4 * |csrcs| <= mem.Length
      modifies mem
      ensures mem[..] == Splice(old(mem[..]), pos, Be32All(csrcs))
    {
      hide Splice, Be32;
      ghost var was := mem[..];
      SpliceNothing(was, pos);
      var i := 0;
      assert csrcs[..0] == [] && Be32All([]) == [];
      while i < |csrcs|
        invariant i <= |csrcs| && |Be32All(csrcs[..i])| == 4 * i
        invariant mem[..] == Splice(was, pos, Be32All(csrcs[..i]))
      {
        Copy(mem, pos + 4 * i, Be32(csrcs[i]));
        SpliceTwice(was, pos, Be32All(csrcs[..i]), Be32(csrcs[i]));
        CsrcBytesMore(csrcs, i);
        i := i + 1;
      }
      assert csrcs[..i] == csrcs;
    }

    static lemma {:induction false} CsrcBytesMore(csrcs: seq<U32>, i: nat)
      requires i < |csrcs|
      ensures Be32All(csrcs[..i + 1]) == Be32All(csrcs[..i]) + Be32(csrcs[i])
      decreases i
    {
      hide Be32;
      if i == 0 {
        assert csrcs[..1] == [csrcs[0]] && csrcs[..0] == [];
        assert csrcs[..1][1..] == [];
        assert Be32All([]) == [];
      } else {
        CsrcBytesMore(csrcs[1..], i - 1);
        assert csrcs[..i + 1][1..] == csrcs[1..][..i] && csrcs[..i][1..] == csrcs[1..][..i - 1];
        ConcatAssoc(Be32(csrcs[0]), Be32All(csrcs[1..][..i - 1]), Be32(csrcs[i]));
      }
    }

    static lemma ExtensionIs(e: Extension)
      ensures ExtensionBytes(Some(e)) == Be16(e.id) + Be16(|e.data| / 4) + e.data
    {
    }

    method PutExtension(mem: array<Byte>, pos: nat, e: Extension)
      requires pos + 4 + |e.data| <= mem.Length
      modifies mem
      ensures mem[..] == Splice(old(mem[..]), pos, ExtensionBytes(Some(e)))
    {
      hide Splice, Be16, ExtensionBytes;
      assert ExtensionBytes(Some(e)) == Be16(e.id) + Be16(|e.data| / 4) + e.data by {
        ExtensionIs(e);
      }
      ghost var was := mem[..];
      Copy(mem, pos, Be16(e.id));
      Copy(mem, pos + 2, Be16(|e.data| / 4));
      SpliceTwice(was, pos, Be16(e.id), Be16(|e.data| / 4));
      Copy(mem, pos + 4, e.data);
      SpliceTwice(was, pos, Be16(e.id) + Be16(|e.data| / 4), e.data);
    }

    /** Header and CSRC list. */
    method PutFront(mem: array<Byte>, c: Content) returns (pos: nat)
      requires |c.csrcs| <= MAX_CSRCS && c.payloadtype < 128 && WireLength(c) <= mem.Length
      modifies mem
      ensures pos == HEADER_SIZE + 4 * |c.csrcs|
      ensures mem[..] == Splice(old(mem[..]), 0, FixedHeader(c) + Be32All(c.csrcs))
    {
      hide Splice, FixedHeader, Be32All;
      ghost var was := mem[..];
      PutHeader(mem, c);
      PutCsrcs(mem, HEADER_SIZE, c.csrcs);
      SpliceTwice(was, 0, FixedHeader(c), Be32All(c.csrcs));
      pos := HEADER_SIZE + 4 * |c.csrcs|;
    }

    method PutOptional(mem: array<Byte>, start: nat, e: Option<Extension>) returns (pos: nat)
      requires start + |ExtensionBytes(e)| <= mem.Length
      modifies mem
      ensures pos == start + |ExtensionBytes(e)|
      ensures mem[..] == Splice(old(mem[..]), start, ExtensionBytes(e))
    {
      hide Splice;
      if e.Some? {
        PutExtension(mem, start, e.value);
        pos := start + 4 + |e.value.data|;
      } else {
        SpliceNothing(mem[..], start);
        pos := start;
      }
    }

    /** Writes the whole packet to the front of mem. */
    method PutPacket(mem: array<Byte>, c: Content)
      requires |c.csrcs| <= MAX_CSRCS && c.payloadtype < 128 && WireLength(c) <= mem.Length
      modifies mem
      ensures mem[..] == Splice(old(mem[..]), 0, Wire(c))
    {
      hide Splice, FixedHeader, Be32All, ExtensionBytes;
      ghost var was := mem[..];
      ghost var f, e := FixedHeader(c) + Be32All(c.csrcs), ExtensionBytes(c.extension);
      var pos := PutFront(mem, c);
      pos := PutOptional(mem, pos, c.extension);
      SpliceTwice(was, 0, f, e);
      Copy(mem, pos, c.payload);
      SpliceTwice(was, 0, f + e, c.payload);
    }

    /** With no buffer given the packet gets one of its own; a limit of zero is none. */
    method BuildPacket(c: Content, buffer: array?<Byte>, maxsize: nat) returns (status: Status)
      requires buffer != null ==> 0 < maxsize <= buffer.Length
      modifies this, buffer
      ensures status == BuildStatus(c, maxsize)
      ensures status.Ok? ==>
                && packetlength == WireLength(c) && payloadlength == |c.payload|
                && packet != null && packetlength <= packet.Length && packet[..packetlength] == Wire(c)
                && (if buffer != null then packet == buffer else fresh(packet))
      ensures !status.Ok? && buffer != null ==> buffer[..] == old(buffer[..])
    {
      hide Wire;
      if |c.csrcs| > MAX_CSRCS {
        return TooManyCsrcs;
      }
      if c.payloadtype > 127 {
        return BadPayloadType;
      }
      if c.payloadtype == 72 || c.payloadtype == 73 {
        return BadPayloadType;
      }
      packetlength := HEADER_SIZE + 4 * |c.csrcs|;
      if c.extension.Some? {
        packetlength := packetlength + 4 + |c.extension.value.data|;
      }
      packetlength := packetlength + |c.payload|;
      if maxsize > 0 && packetlength > maxsize {
        packetlength := 0;
        return DataExceedsMaxSize;
      }
      var mem: array<Byte>;
      if buffer == null {
        mem := new Byte[packetlength](i => 0);
      } else {
        mem := buffer;
      }
      packet := mem;
      Set(Fields(c.extension.Some?,
                 if c.extension.Some? then c.extension.value.id else extid, extension,
                 if c.extension.Some? then |c.extension.value.data| else extensionlength,
                 c.marker, |c.csrcs|, c.payloadtype, c.seqnr, c.timestamp, c.ssrc,
                 packetlength, packetlength - |c.payload|, |c.payload|));
      ghost var was := mem[..];
      PutPacket(mem, c);
      SpliceFront(was, Wire(c));
      assert mem[..][..packetlength] == mem[..packetlength];
      return Ok;
    }

    static lemma SpliceFront(s: seq<Byte>, t: seq<Byte>)
      requires |t| <= |s|
      ensures Splice(s, 0, t)[..|t|] == t
    {
    }
  }

  // ----- the builder as a state machine -----

  datatype Sender = Sender(
    csrcs: seq<U32>,
    ssrc: U32,
    seqnr: U16,
    timestamp: U32,
    numpackets: U32,
    numpayloadbytes: U32
  )

  datatype ListStatus = Listed | ListFull | AlreadyInList | NotInList

  ghost predicate CsrcList(s: seq<U32>) {
    |s| <= MAX_CSRCS && forall i, j :: 0 <= i < j < |s| ==> s[i] != s[j]
  }

  function IndexOf(s: seq<U32>, c: U32): (i: nat)
    ensures i <= |s| && (i < |s| ==> s[i] == c) && forall j :: 0 <= j < i ==> s[j] != c
  {
    if s == [] || s[0] == c then 0 else 1 + IndexOf(s[1..], c)
  }

  function AddStatus(s: seq<U32>, c: U32): ListStatus {
    if |s| >= MAX_CSRCS then ListFull else if IndexOf(s, c) < |s| then AlreadyInList else Listed
  }

  function Added(s: seq<U32>, c: U32): seq<U32> {
    if AddStatus(s, c).Listed? then s + [c] else s
  }

  /** The last entry takes the place of the deleted one. */
  function Deleted(s: seq<U32>, c: U32): seq<U32> {
    var i, n := IndexOf(s, c), |s|;
    if i == n then s else s[i := s[n - 1]][..n - 1]
  }

  lemma AddedKeeps(s: seq<U32>, c: U32)
    requires CsrcList(s)
    ensures CsrcList(Added(s, c))
    ensures forall x :: x in Added(s, c) <==> x in s || (x == c && |s| < MAX_CSRCS)
  {
    var i := IndexOf(s, c);
    assert i < |s| ==> s[i] in s;
  }

  lemma DeletedKeeps(s: seq<U32>, c: U32)
    requires CsrcList(s)
    ensures CsrcList(Deleted(s, c))
    ensures forall x :: x in Deleted(s, c) <==> x in s && x != c
  {
    var i, n, d := IndexOf(s, c), |s|, Deleted(s, c);
    if i < n {
      forall x | x in s && x != c ensures x in d {
        var j :| 0 <= j < n && s[j] == x;
        assert d[if j == n - 1 then i else j] == x;
      }
      forall x | x in d ensures x in s && x != c {
        var j :| 0 <= j < n - 1 && d[j] == x;
        assert x == s[if j == i then n - 1 else j];
      }
    }
  }

  /** Any number of 32-bit words. */
  type Words = d: seq<Byte> | |d| % 4 == 0 witness []

  datatype ExtensionRequest = ExtensionRequest(id: U16, data: Words)

  /** What one build is asked for. */
  datatype Request = Request(
    data: seq<Byte>,
    pt: Byte,
    mark: bool,
    timestampinc: U32,
    extension: Option<ExtensionRequest>
  )

  /** The number of words is cast to 16 bits on its way to the packet. */
  function Cut(e: ExtensionRequest): Extension {
    var words := |e.data| / 4 % 0x1_0000;
    Extension(e.id, e.data[..4 * words])
  }

  function CutIfAny(e: Option<ExtensionRequest>): Option<Extension> {
    if e.None? then None else Some(Cut(e.value))
  }

  datatype Op = AddOp(csrc: U32) | DeleteOp(csrc: U32) | ClearOp | TickOp(inc: U32) | BuildOp(r: Request)

  function Asked(s: Sender, r: Request): Content {
    Content(r.pt, r.mark, s.seqnr, s.timestamp, s.ssrc, s.csrcs, CutIfAny(r.extension), r.data)
  }

  /** A packet that is built parses back to what was asked for, except that the words of a header extension
      come back if and only if there are fewer than 65536 of them. */
  lemma ExtensionReturns(s: Sender, r: Request, max: nat)
    requires BuildStatus(Asked(s, r), max).Ok?
    ensures var p := Parse(Wire(Asked(s, r)));
            && p.Some? && p.value.(extension := None) == Asked(s, r).(extension := None)
            && (p.value.extension.Some? <==> r.extension.Some?)
            && (r.extension.Some? ==>
                  var got, asked := p.value.extension.value, r.extension.value;
                  && got.id == asked.id
                  && (got.data == asked.data <==> |asked.data| / 4 < 0x1_0000))
  {
    hide Parse, Wire, BuildStatus;
    BuildThenParse(Asked(s, r), max);
    if r.extension.Some? {
      CutExactly(r.extension.value);
    }
  }

  lemma CutExactly(e: ExtensionRequest)
    ensures Cut(e).data == e.data <==> |e.data| / 4 < 0x1_0000
  {
    var words := |e.data| / 4;
    assert |e.data| == 4 * words;
    if words < 0x1_0000 {
      assert e.data[..4 * words] == e.data;
    }
  }

  /** An extension of 65536 words is sent as an empty one, without an error. */
  lemma LongExtensionVanishes(s: Sender, r: Request, max: nat)
    requires r.extension.Some? && |r.extension.value.data| == 4 * 0x1_0000
    requires BuildStatus(Asked(s, r), max).Ok?
    ensures var p := Parse(Wire(Asked(s, r)));
            p.Some? && p.value.extension == Some(Extension(r.extension.value.id, []))
  {
    hide Parse, Wire, BuildStatus;
    BuildThenParse(Asked(s, r), max);
    assert r.extension.value.data[..0] == [];
  }

  function Wrap16(x: nat): U16 {
    x % 0x1_0000
  }

  function Wrap32(x: nat): U32 {
    x % TWO32
  }

  function Built(s: Sender, r: Request): Sender {
    s.(numpayloadbytes := Wrap32(s.numpayloadbytes + |r.data|), numpackets := Wrap32(s.numpackets + 1),
       timestamp := Wrap32(s.timestamp + r.timestampinc), seqnr := Wrap16(s.seqnr + 1))
  }

  predicate Builds(s: Sender, op: Op, max: nat) {
    op.BuildOp? && BuildStatus(Asked(s, op.r), max).Ok?
  }

  function After(s: Sender, op: Op, max: nat): Sender {
    match op
    case AddOp(c) => s.(csrcs := Added(s.csrcs, c))
    case DeleteOp(c) => s.(csrcs := Deleted(s.csrcs, c))
    case ClearOp => s.(csrcs := [])
    case TickOp(inc) => s.(timestamp := Wrap32(s.timestamp + inc))
    case BuildOp(r) => if Builds(s, op, max) then Built(s, r) else s
  }

  function AfterAll(s: Sender, ops: seq<Op>, max: nat): Sender
    decreases |ops|
  {
    if ops == [] then s else AfterAll(After(s, ops[0], max), ops[1..], max)
  }

  /** The packets a run builds. */
  function Sent(s: Sender, ops: seq<Op>, max: nat): seq<Content>
    decreases |ops|
  {
    if ops == [] then []
    else (if Builds(s, ops[0], max) then [Asked(s, ops[0].r)] else []) + Sent(After(s, ops[0], max), ops[1..], max)
  }

  function PayloadBytes(packets: seq<Content>): nat {
    if packets == [] then 0 else |packets[0].payload| + PayloadBytes(packets[1..])
  }

  /** Timestamp increments of the builds that succeed and of the explicit ones. */
  function Ticks(s: Sender, ops: seq<Op>, max: nat): nat
    decreases |ops|
  {
    if ops == [] then 0
    else
      (if ops[0].TickOp? then ops[0].inc as int else if Builds(s, ops[0], max) then ops[0].r.timestampinc as int else 0)
      + Ticks(After(s, ops[0], max), ops[1..], max)
  }

  lemma WrapTwice(a: nat, b: nat)
    ensures Wrap16(Wrap16(a) + b) == Wrap16(a + b) && Wrap32(Wrap32(a) + b) == Wrap32(a + b)
  {
    ModTwice(a, b, 0x1_0000);
    ModTwice(a, b, TWO32);
  }

  lemma ModTwice(a: nat, b: nat, m: nat)
    requires m > 0
    ensures (a % m + b) % m == (a + b) % m
  {
    var q, t := a / m, (a % m + b) / m;
    var u := (a % m + b) % m;
    assert a == q * m + a % m && a % m + b == t * m + u;
    assert (q + t) * m == q * m + t * m && (q + t + 1) * m == (q + t) * m + m;
    DivUnique(a + b, m, q + t);
    assert (a + b) == (a + b) / m * m + (a + b) % m;
  }

  lemma Unwrapped(s: Sender)
    ensures s.seqnr == Wrap16(s.seqnr) && s.numpackets == Wrap32(s.numpackets)
    ensures s.numpayloadbytes == Wrap32(s.numpayloadbytes) && s.timestamp == Wrap32(s.timestamp)
  {
  }

  /** The state e after building the packets p, with the timestamp moved by ticks in all. */
  ghost predicate AddsUp(s: Sender, e: Sender, p: seq<Content>, ticks: nat) {
    && e.ssrc == s.ssrc
    && e.seqnr == Wrap16(s.seqnr + |p|)
    && e.numpackets == Wrap32(s.numpackets + |p|)
    && e.numpayloadbytes == Wrap32(s.numpayloadbytes + PayloadBytes(p))
    && e.timestamp == Wrap32(s.timestamp + ticks)
  }

  ghost predicate Numbered(s: Sender, p: seq<Content>) {
    forall k :: 0 <= k < |p| ==> p[k].seqnr == Wrap16(s.seqnr + k) && p[k].ssrc == s.ssrc && CsrcList(p[k].csrcs)
  }

  lemma AddsUpBuilt(s: Sender, e: Sender, r: Request, rest: seq<Content>, ticks: nat)
    requires AddsUp(Built(s, r), e, rest, ticks)
    ensures AddsUp(s, e, [Asked(s, r)] + rest, r.timestampinc + ticks)
  {
    hide Wrap16, Wrap32, PayloadBytes;
    PayloadFirst(Asked(s, r), rest);
    WrapTwice(s.seqnr + 1, |rest|);
    WrapTwice(s.numpackets + 1, |rest|);
    WrapTwice(s.numpayloadbytes + |r.data|, PayloadBytes(rest));
    WrapTwice(s.timestamp + r.timestampinc, ticks);
  }

  lemma NumberedBuilt(s: Sender, r: Request, rest: seq<Content>)
    requires Numbered(Built(s, r), rest) && CsrcList(s.csrcs)
    ensures Numbered(s, [Asked(s, r)] + rest)
  {
    hide Wrap16, Wrap32, CsrcList;
    var p := [Asked(s, r)] + rest;
    Unwrapped(s);
    forall k | 0 <= k < |p| ensures p[k].seqnr == Wrap16(s.seqnr + k) && p[k].ssrc == s.ssrc && CsrcList(p[k].csrcs) {
      if k > 0 {
        assert p[k] == rest[k - 1];
        WrapTwice(s.seqnr + 1, k - 1);
      }
    }
  }

  /** Over every run the CSRC list stays free of duplicates with at most 15 entries, the packets built carry
      consecutive sequence numbers and the one SSRC, and sequence number, timestamp and both counters are the
      modular sums over the packets actually built. */
  lemma {:induction false} RunAddsUp(s: Sender, ops: seq<Op>, max: nat)
    requires CsrcList(s.csrcs)
    ensures CsrcList(AfterAll(s, ops, max).csrcs)
    ensures AddsUp(s, AfterAll(s, ops, max), Sent(s, ops, max), Ticks(s, ops, max))
    ensures Numbered(s, Sent(s, ops, max))
    decreases |ops|
  {
    hide Added, Deleted, Builds, CsrcList, PayloadBytes, Wrap16, Wrap32, AddsUp, Numbered, Built, Asked;
    if ops == [] {
      Unmoved(s);
    } else {
      var t := After(s, ops[0], max);
      StepKeepsList(s, ops[0], max);
      RunAddsUp(t, ops[1..], max);
      var e, rest, n := AfterAll(t, ops[1..], max), Sent(t, ops[1..], max), Ticks(t, ops[1..], max);
      if Builds(s, ops[0], max) {
        OnlyBuilds(s, ops[0], max);
        AddsUpBuilt(s, e, ops[0].r, rest, n);
        NumberedBuilt(s, ops[0].r, rest);
      } else {
        assert [] + rest == rest;
        Elsewhere(s, ops[0], max, e, rest, n);
      }
    }
  }

  lemma OnlyBuilds(s: Sender, op: Op, max: nat)
    requires Builds(s, op, max)
    ensures op.BuildOp?
  {
  }

  lemma Unmoved(s: Sender)
    ensures AddsUp(s, s, [], 0) && Numbered(s, [])
  {
  }

  lemma Elsewhere(s: Sender, op: Op, max: nat, e: Sender, rest: seq<Content>, ticks: nat)
    requires !Builds(s, op, max)
    requires AddsUp(After(s, op, max), e, rest, ticks) && Numbered(After(s, op, max), rest)
    ensures AddsUp(s, e, rest, ticks + if op.TickOp? then op.inc as int else 0) && Numbered(s, rest)
  {
    hide Wrap16, Wrap32, CsrcList, PayloadBytes, Added, Deleted, Builds;
    if op.TickOp? {
      WrapTwice(s.timestamp + op.inc, ticks);
    }
  }

  lemma PayloadFirst(c: Content, rest: seq<Content>)
    ensures PayloadBytes([c] + rest) == |c.payload| + PayloadBytes(rest)
  {
    assert ([c] + rest)[1..] == rest;
  }

  lemma StepKeepsList(s: Sender, op: Op, max: nat)
    requires CsrcList(s.csrcs)
    ensures CsrcList(After(s, op, max).csrcs)
  {
    hide Added, Deleted;
    match op
    case AddOp(c) => AddedKeeps(s.csrcs, c);
    case DeleteOp(c) => DeletedKeeps(s.csrcs, c);
    case _ =>
  }

  class RTPPacketBuilder {
    const maxpacksize: nat
    const buffer: array<Byte>
    const csrcs: array<U32>
    var numcsrcs: nat
    var ssrc: U32
    var timestamp: U32
    var seqnr: U16
    var numpayloadbytes: U32
    var numpackets: U32
    var packetlength: nat
    var lastwallclocktime: real
    var lastrtptimestamp: U32
    var prevrtptimestamp: U32

    /** Init, with the random values of CreateNewSSRC. */
    constructor (max: nat, ssrc: U32, timestamp: U32, seqnr: U16)
      requires max > 0
      ensures Valid() && Current() == Sender([], ssrc, seqnr, timestamp, 0, 0)
      ensures maxpacksize == max && packetlength == 0
    {
      maxpacksize := max;
      buffer := new Byte[max](i => 0);
      csrcs := new U32[MAX_CSRCS](i => 0);
      packetlength, numcsrcs, numpackets, numpayloadbytes := 0, 0, 0, 0;
      this.ssrc, this.timestamp, this.seqnr := ssrc, timestamp, seqnr;
      lastwallclocktime, lastrtptimestamp, prevrtptimestamp := 0.0, 0, 0;
    }

    ghost predicate Valid()
      reads this, csrcs
    {
      && maxpacksize > 0 && buffer.Length == maxpacksize && csrcs.Length == MAX_CSRCS && numcsrcs <= MAX_CSRCS
      && CsrcList(csrcs[..numcsrcs]) && lastrtptimestamp == prevrtptimestamp
    }

    ghost function Current(): Sender
      requires numcsrcs <= csrcs.Length
      reads this, csrcs
    {
      Sender(csrcs[..numcsrcs], ssrc, seqnr, timestamp, numpackets, numpayloadbytes)
    }

    method AddCSRC(csrc: U32) returns (status: ListStatus)
      requires Valid()
      modifies `numcsrcs, csrcs
      ensures Valid() && status == AddStatus(old(csrcs[..numcsrcs]), csrc)
      ensures Current() == After(old(Current()), AddOp(csrc), maxpacksize)
    {
      ghost var was := csrcs[..numcsrcs];
      AddedKeeps(was, csrc);
      if numcsrcs >= MAX_CSRCS {
        return ListFull;
      }
      for i := 0 to numcsrcs
        invariant csrc !in csrcs[..i]
      {
        if csrcs[i] == csrc {
          assert was[i] == csrc;
          return AlreadyInList;
        }
      }
      csrcs[numcsrcs] := csrc;
      numcsrcs := numcsrcs + 1;
      assert csrcs[..numcsrcs] == was + [csrc];
      return Listed;
    }

    method DeleteCSRC(csrc: U32) returns (status: ListStatus)
      requires Valid()
      modifies `numcsrcs, csrcs
      ensures Valid() && status == if csrc in old(csrcs[..numcsrcs]) then Listed else NotInList
      ensures Current() == After(old(Current()), DeleteOp(csrc), maxpacksize)
    {
      ghost var was := csrcs[..numcsrcs];
      DeletedKeeps(was, csrc);
      var i := 0;
      var found := false;
      while !found && i < numcsrcs
        invariant i <= numcsrcs && csrc !in was[..i]
        invariant found ==> i < numcsrcs && csrcs[i] == csrc
        decreases numcsrcs - i, !found
      {
        if csrcs[i] == csrc {
          found := true;
        } else {
          i := i + 1;
        }
      }
      FirstIs(was, csrc, i);
      if !found {
        return NotInList;
      }
      numcsrcs := numcsrcs - 1;
      if numcsrcs > 0 && numcsrcs != i {
        csrcs[i] := csrcs[numcsrcs];
      }
      assert csrcs[..numcsrcs] == Deleted(was, csrc);
      return Listed;
    }

    static lemma {:induction false} FirstIs(s: seq<U32>, c: U32, i: nat)
      requires i <= |s| && c !in s[..i] && (i < |s| ==> s[i] == c)
      ensures IndexOf(s, c) == i
      decreases i
    {
      if i > 0 {
        assert s[..i][0] == s[0] && s[1..][..i - 1] == s[..i][1..];
        FirstIs(s[1..], c, i - 1);
      }
    }

    method ClearCSRCList()
      requires Valid()
      modifies `numcsrcs
      ensures Valid() && Current() == After(old(Current()), ClearOp, maxpacksize)
    {
      numcsrcs := 0;
    }

    method IncrementTimestamp(inc: U32)
      requires Valid()
      modifies `timestamp
      ensures Valid() && Current() == After(old(Current()), TickOp(inc), maxpacksize)
    {
      timestamp := (timestamp + inc) % TWO32;
    }

    /** A new source identity restarts the counters; the list of contributing sources stays. */
    method CreateNewSSRC(ssrc: U32, timestamp: U32, seqnr: U16)
      requires Valid()
      modifies `ssrc, `timestamp, `seqnr, `numpayloadbytes, `numpackets
      ensures Valid() && Current() == Sender(old(csrcs[..numcsrcs]), ssrc, seqnr, timestamp, 0, 0)
    {
      this.ssrc, this.timestamp, this.seqnr := ssrc, timestamp, seqnr;
      numpayloadbytes, numpackets := 0, 0;
    }

    /** The buffer holds the packet asked for, and the counters move, exactly when the build succeeds. */
    method PrivateBuildPacket(r: Request, now: real) returns (status: Status)
      requires Valid()
      modifies this, buffer
      ensures Valid() && status == BuildStatus(Asked(old(Current()), r), maxpacksize)
      ensures Current() == After(old(Current()), BuildOp(r), maxpacksize)
      ensures status.Ok? ==> packetlength <= buffer.Length && buffer[..packetlength] == Wire(Asked(old(Current()), r))
                             && lastrtptimestamp == old(timestamp)
      ensures !status.Ok? ==> buffer[..] == old(buffer[..]) && packetlength == old(packetlength)
    {
      hide CsrcList, BuildStatus, Wire, Wrap16, Wrap32;
      var c := Content(r.pt, r.mark, seqnr, timestamp, ssrc, csrcs[..numcsrcs], CutIfAny(r.extension), r.data);
      var p := new RTPPacket();
      status := p.BuildPacket(c, buffer, maxpacksize);
      if status != Ok {
        return;
      }
      packetlength := p.packetlength;
      Count(p.payloadlength, r.timestampinc, now);
    }

    /** What a packet built successfully leaves behind. */
    method Count(payloadlength: nat, timestampinc: U32, now: real)
      requires lastrtptimestamp == prevrtptimestamp
      modifies `numpayloadbytes, `numpackets, `timestamp, `seqnr
      modifies `lastwallclocktime, `lastrtptimestamp, `prevrtptimestamp
      ensures numpayloadbytes == Wrap32(old(numpayloadbytes) + payloadlength)
      ensures numpackets == Wrap32(old(numpackets) + 1)
      ensures timestamp == Wrap32(old(timestamp) + timestampinc) && seqnr == Wrap16(old(seqnr) + 1)
      ensures lastrtptimestamp == prevrtptimestamp == old(timestamp)
    {
      if numpackets == 0 {
        lastwallclocktime, lastrtptimestamp, prevrtptimestamp := now, timestamp, timestamp;
      } else if timestamp != prevrtptimestamp {
        lastwallclocktime, lastrtptimestamp, prevrtptimestamp := now, timestamp, timestamp;
      }
      numpayloadbytes := (numpayloadbytes + payloadlength) % TWO32;
      numpackets := (numpackets + 1) % TWO32;
      timestamp := (timestamp + timestampinc) % TWO32;
      seqnr := (seqnr + 1) % 0x1_0000;
    }
  }
}
