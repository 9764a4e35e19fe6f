/** What the width of a C long does to the decoder of librtmp/amf.c: with 64 bits it never leaves its input;
    with 32 bits it does so for stored string lengths of 2^31 - 4 or more, and otherwise both agree. */
module AmfWidth {
  import opened Bytes
  import opened AmfCodec

  /** Stored lengths whose comparison does not wrap around. */
  predicate Sane(nStringSize: U32) {
    nStringSize < 0x8000_0000 - 4
  }

  /** With 32 bits the test lets through every string that fits and every one whose length wraps around. */
  lemma AcceptedExactly(nSize: nat, nStringSize: U32)
    requires 4 <= nSize < 0x8000_0000
    ensures Accepts(Bits64, nSize, nStringSize) <==> nStringSize + 4 <= nSize
    ensures Accepts(Bits32, nSize, nStringSize) <==> nStringSize + 4 <= nSize || !Sane(nStringSize)
  {
    if nStringSize + 4 < 0x8000_0000 {
    } else {
      assert AsInt32(nStringSize + 4) == nStringSize + 4 - TWO32;
    }
  }

  /** What an accepted string consumes lies between 0 and the bytes there are, whatever the width, unless the
      stored length is at least 2^31 - 4 and less than 2^32 - 4. */
  lemma ConsumesWithin(long: Width, nSize: nat, nStringSize: U32)
    requires 4 <= nSize < 0x8000_0000 && Accepts(long, nSize, nStringSize)
    ensures 0 <= BytesLeft(nSize, nStringSize) <= nSize <==> Sane(nStringSize) || nStringSize >= TWO32 - 4
  {
    AcceptedExactly(nSize, nStringSize);
    var left := nSize - (4 + nStringSize);
    if left < -0x8000_0000 {
      assert AsInt32(left) == left + TWO32;
    } else {
      assert AsInt32(left) == left;
    }
  }

  /** A long string is decoded the same with either width if and only if the test does not wrap around; if it
      does, the 64-bit decoder refuses the string and the 32-bit one takes bytes that are not there. */
  lemma LongStringExact(data: seq<Byte>)
    requires 4 <= |data| < 0x8000_0000
    ensures DecodeLongString(Bits32, data) == DecodeLongString(Bits64, data) <==> Sane(FromBe32(data, 0))
    ensures !Sane(FromBe32(data, 0)) ==>
              DecodeLongString(Bits32, data) == Astray && DecodeLongString(Bits64, data) == Failed
  {
    AcceptedExactly(|data|, FromBe32(data, 0));
  }

  /** Five bytes that show it: 16 bytes seem to be left of 4, so AMFProp_Decode returns -11 and its caller
      steps backwards. */
  lemma FiveBytesGoAstray()
    ensures var data: seq<Byte> := [LONG_STRING, 0xff, 0xff, 0xff, 0xf0];
            && var n := FromBe32(data[1..], 0);
            && !Accepts(Bits64, 4, n) && Accepts(Bits32, 4, n)
            && BytesLeft(4, n) == 16 && |data| - BytesLeft(4, n) == -11
            && DecodeProperty(Bits64, data, false) == Failed && DecodeProperty(Bits32, data, false) == Astray
  {
    var data: seq<Byte> := [LONG_STRING, 0xff, 0xff, 0xff, 0xf0];
    var body := data[1..];
    assert body == [0xff, 0xff, 0xff, 0xf0];
    LongStringExact(body);
    assert DecodeBody(Bits32, LONG_STRING, body) == Astray && DecodeBody(Bits64, LONG_STRING, body) == Failed;
  }

  // ----- whatever the input, 32 bits either go astray or decode as 64 bits do -----

  lemma {:induction false} BodyAgrees(kind: Byte, data: seq<Byte>)
    requires |data| < 0x8000_0000
    ensures DecodeBody(Bits32, kind, data) in {Astray, DecodeBody(Bits64, kind, data)}
    decreases |data|, 3
  {
    hide DecodeObject, DecodeLongString;
    if kind == OBJECT {
      ObjectAgrees(data, true, false);
    } else if kind == LONG_STRING && |data| < 4 {
      ShortData(data);
    } else if kind == LONG_STRING {
      LongStringExact(data);
    }
  }

  lemma ShortData(data: seq<Byte>)
    requires |data| < 4
    ensures DecodeLongString(Bits32, data) == Astray
  {
  }

  lemma {:induction false} PropertyAgrees(data: seq<Byte>, named: bool)
    requires |data| < 0x8000_0000
    ensures DecodeProperty(Bits32, data, named) in {Astray, DecodeProperty(Bits64, data, named)}
    decreases |data|, 1
  {
    hide DecodeBody;
    var n := if named && |data| >= 2 then 2 + FromBe16(data, 0) else 0;
    if n < |data| {
      BodyAgrees(data[n], data[n + 1..]);
    }
  }

  /** Over any input the 32-bit decoder reads what the 64-bit decoder reads, unless it goes astray. */
  lemma {:induction false} ObjectAgrees(data: seq<Byte>, named: bool, failed: bool)
    requires |data| < 0x8000_0000
    ensures DecodeObject(Bits32, data, named, failed) in {Astray, DecodeObject(Bits64, data, named, failed)}
    decreases |data|, if failed then 0 else 2
  {
    hide DecodeProperty;
    if |data| == 0 || (|data| >= 3 && FromBe24(data, 0) == OBJECT_END) {
    } else if failed {
      ObjectAgrees(data[1..], named, true);
    } else {
      PropertyAgrees(data, named);
      match DecodeProperty(Bits32, data, named)
      case Failed =>
        ObjectAgrees(data, named, true);
      case Done(_, n) =>
        ObjectAgrees(data[n..], named, false);
      case _ =>
    }
  }
}
