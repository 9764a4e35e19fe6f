/** What each type byte stands for in the decoder of librtmp/amf.c and what each value costs its encoder, in the
    numbers that go over the wire. */
module AmfTypes {
  import opened Bytes
  import opened AmfCodec
  import opened AmfEncoder

  // ----- reading -----

  /** Where a property's type byte stands. */
  function TypeAt(data: seq<Byte>, named: bool): (n: nat)
    requires named ==> |data| >= 2
  {
    if named then 2 + Read2(data, 0) else 0
  }

  /** Room for a name, where there is one, and for a type byte behind it. */
  predicate HasType(data: seq<Byte>, named: bool) {
    if named then |data| >= 4 && 2 + Read2(data, 0) < |data| else |data| >= 1
  }

  /** r is what a value of this type has to be read as from the bytes behind its type byte. */
  predicate ReadAs(long: Width, kind: Byte, body: seq<Byte>, r: Decoded<Value>)
    requires |body| < 0x8000_0000
  {
    match kind
    case 0 => r == if |body| < 8 then Failed else Done(Number(body[..8]), 8)
    case 1 => r == if |body| < 1 then Failed else Done(Boolean(body[0] > 0), 1)
    case 2 => StringReadAs(body, r)
    case 3 => ObjectReadAs(DecodeObject(long, body, true, false), r)
    case 5 => r == Done(Null, 0)
    case 6 => r == Done(Null, 0)
    case 8 => r == Unmodelled
    case 10 => r == Unmodelled
    case 11 => r == if |body| < 10 then Failed else Done(Date(body[..8], Read2(body, 8)), 10)
    case 12 => long.Bits64? ==> LongStringReadAs(body, r)
    case 13 => r == Done(Null, 0)
    case 17 => r == Unmodelled
    case _ => r == Failed
  }

  predicate StringReadAs(body: seq<Byte>, r: Decoded<Value>) {
    if |body| < 2 || |body| < 2 + Read2(body, 0) then r == Failed
    else r.Done? && r.used == 2 + Read2(body, 0) && r.value.String? && r.value.aval == body[2..r.used]
  }

  predicate LongStringReadAs(body: seq<Byte>, r: Decoded<Value>) {
    if |body| < 4 || |body| < 4 + Read4(body, 0) then r == Failed
    else r.Done? && r.used == 4 + Read4(body, 0) && r.value.String? && r.value.aval == body[4..r.used]
  }

  /** An object in an object is one as a whole or not at all. */
  predicate ObjectReadAs(o: Decoded<seq<Property>>, r: Decoded<Value>) {
    && (r.Done? <==> o.Done?) && (r.Failed? <==> o.Failed?) && (r.Unmodelled? <==> o.Unmodelled?)
    && (r.Done? ==> r.value == Object(o.value) && r.used == o.used)
  }

  lemma StringRead(body: seq<Byte>)
    requires |body| < 0x8000_0000
    ensures StringReadAs(body, DecodeString(body))
  {
  }

  lemma LongStringRead(body: seq<Byte>)
    requires |body| < 0x8000_0000
    ensures LongStringReadAs(body, DecodeLongString(Bits64, body))
  {
    if |body| >= 4 {
      var n := FromBe32(body, 0);
      if Accepts(Bits64, |body|, n) {
        assert AsInt32(|body| - (4 + n)) == |body| - (4 + n);
      }
    }
  }

  lemma BodyRead(long: Width, kind: Byte, body: seq<Byte>)
    requires |body| < 0x8000_0000
    ensures ReadAs(long, kind, body, DecodeBody(long, kind, body))
  {
    hide DecodeObject, DecodeString, DecodeLongString, StringReadAs, LongStringReadAs;
    StringRead(body);
    LongStringRead(body);
  }

  /** What was read behind a type byte at position n. */
  function Behind(r: Decoded<Property>, n: nat): Decoded<Value>
    requires r.Done? ==> r.used > n
  {
    match r
    case Done(p, used) => Done(p.value, used - n - 1)
    case Failed => Failed
    case Unmodelled => Unmodelled
    case Astray => Astray
  }

  /** A property from its bytes: it fails without a well-formed name and a type byte behind it, and otherwise is
      what the type byte says of the bytes that follow, under the name before it. Types 5, 6 and 13 alike give a
      null and end there; type 11 gives the date of ten bytes; every type but these and those left out fails. */
  lemma PropertyFromBytes(long: Width, data: seq<Byte>, named: bool)
    requires |data| < 0x8000_0000
    ensures var r := DecodeProperty(long, data, named);
            if !HasType(data, named) then r == Failed
            else
              var n := TypeAt(data, named);
              && (r.Done? ==> r.used > n && r.value.name == if named then data[2..n] else [])
              && ReadAs(long, data[n], data[n + 1..], Behind(r, n))
              && (data[n] == 5 || data[n] == 6 || data[n] == 13 ==> r.Done? && r.value.value == Null && r.used == n + 1)
  {
    hide DecodeBody;
    if HasType(data, named) {
      var n := TypeAt(data, named);
      BodyRead(long, data[n], data[n + 1..]);
    }
  }

  /** The end mark is the bytes 0, 0, 9. */
  lemma EndMarkIs(data: seq<Byte>)
    ensures EndsHere(data) <==> |data| >= 3 && data[0] == 0 && data[1] == 0 && data[2] == 9
    ensures END_MARK == [0, 0, 9]
  {
  }

  /** An undefined property is kept as a null of its name. */
  lemma UndefinedIsKept(long: Width)
    ensures DecodeObject(long, [0, 1, 97, 6, 0, 0, 9], true, false) == Done([Property([97], Null)], 7)
  {
    hide DecodeProperty, DecodeObject;
    var data: seq<Byte> := [0, 1, 97, 6, 0, 0, 9];
    PropertyFromBytes(long, data, true);
    assert data[2..3] == [97];
    TakesProperty(long, data, true);
    assert data[4..] == [0, 0, 9];
    StopsAtMark(long, data[4..], true, false);
    var none: seq<Property> := [];
    assert [Property([97], Null)] + none == [Property([97], Null)];
  }

  // ----- writing -----

  /** The bytes of each kind of value. */
  lemma WrittenAs(v: Value)
    ensures match v
            case Number(d) => WireValue(v) == [0] + d
            case Boolean(b) => WireValue(v) == if b then [1, 1] else [1, 0]
            case String(s) => WrittenString(s, WireValue(v))
            case Object(props) => WireValue(v) == [3] + WireProps(props) + [0, 0, 9]
            case Null => WireValue(v) == [5]
            case _ => true
  {
    hide WireProps;
    match v
    case String(s) =>
      StringWritten(s);
    case _ =>
  }

  /** Type 2 and two length bytes below 65536 bytes, type 12 and four from there on. */
  predicate WrittenString(s: seq<Byte>, w: seq<Byte>) {
    if |s| < 65536 then |w| == 3 + |s| && w[0] == 2 && Read2(w, 1) == |s| && w[3..] == s
    else |w| == 5 + |s| && w[0] == 12 && Read4(w, 1) == |s| && w[5..] == s
  }

  lemma StringWritten(s: AVal)
    ensures WrittenString(s, WireString(s))
  {
    var kind: seq<Byte> := if |s| < 65536 then [2] else [12];
    var size := if |s| < 65536 then Be16(|s|) else Be32(|s|);
    Sections(kind, size, s, []);
    assert WireString(s) == kind + size + s + [];
    ReadWhere(WireString(s), 1, size);
    Digits(|s|);
  }

  /** The length of a name is written in two bytes, whatever it is; an empty name is left out. */
  lemma NameWritten(name: AVal)
    ensures name == [] ==> NameField(name) == []
    ensures var w := NameField(name);
            name != [] ==> |w| == 2 + |name| && Read2(w, 0) == |name| % 65536 && w[2..] == name
  {
    var v := |name| % 65536;
    assert v / 256 * 256 + v % 256 == v;
    ByteDigits(|name|);
  }

  /** What a value needs. A short string needs the room of a long one, and a null or an object a byte more than
      is written; an object also needs the room of its end mark behind the properties that were written. */
  lemma RoomNeeded(v: Value, room: nat)
    ensures var e := EncodeValue(v, room);
            match v
            case Number(_) => e.Some? <==> room >= 9
            case Boolean(_) => e.Some? <==> room >= 2
            case String(s) => e.Some? <==> room >= |s| + 5
            case Object(props) => e.Some? <==> room >= 5 && |EncodeProps(props, room - 1)| + 5 <= room
            case Null => e.Some? <==> room >= 2
            case _ => e.None?
  {
    hide EncodeProps;
  }

  /** A property needs four bytes more than its name, or the two of a null, and what its value needs behind it. */
  lemma PropertyRoom(p: Property, room: nat)
    ensures var name := if p.name == [] then 0 else 2 + |p.name|;
            EncodeProperty(p, room).Some? <==>
              if p.value.Null? then room >= 2 else room >= |p.name| + 4 && EncodeValue(p.value, room - name).Some?
  {
    hide EncodeValue;
    if p.value.Null? {
      RoomNeeded(p.value, room);
    } else if p.value.Invalid? && room >= |NameField(p.name)| {
      RoomNeeded(p.value, room - |NameField(p.name)|);
    }
  }

  /** The encoder takes properties as long as they fit: the first one left out is one that no longer did. */
  lemma {:induction false} TakesAllThatFit(props: seq<Property>, room: nat)
    ensures var k, left := |KeptProps(props, room)|, room - |EncodeProps(props, room)|;
            k < |props| ==> EncodeProperty(props[k], left).None?
    decreases props
  {
    hide EncodeProperty, KeptProperty;
    if props != [] {
      var p := EncodeProperty(props[0], room);
      if p.Some? {
        TakesAllThatFit(props[1..], room - |p.value|);
      }
    }
  }
}
