/** The size-limited AMF0 encoder of librtmp/amf.c as a function of the room left in the buffer, and how it
    relates to the unlimited wire form. */
module AmfEncoder {
  import opened Bytes
  import opened AmfCodec

  /** A short string is refused unless the room of a long one is there too. */
  function EncodeString(s: AVal, room: nat): (r: Option<seq<Byte>>) {
    if (|s| < 0x1_0000 && 3 + |s| > room) || 5 + |s| > room then None else Some(WireString(s))
  }

  function EncodeValue(v: Value, room: nat): (r: Option<seq<Byte>>)
    ensures r.Some? ==> |r.value| <= room
    decreases v, 1
  {
    match v
    case Number(d) => if 9 > room then None else Some([NUMBER] + d)
    case Boolean(b) => if 2 > room then None else Some([BOOLEAN, if b then 1 else 0])
    case String(s) => EncodeString(s, room)
    case Object(props) => EncodeObject(props, room)
    case Null => if 1 >= room then None else Some([NULL])
    case Date(_, _) => None
    case Invalid => None
  }

  function EncodeProperty(p: Property, room: nat): (r: Option<seq<Byte>>)
    ensures r.Some? ==> |r.value| <= room
    decreases p, 2
  {
    if p.value.Invalid? || (!p.value.Null? && |p.name| + 3 >= room) then None
    else if p.value.Null? then EncodeValue(p.value, room)
    else
      var v := EncodeValue(p.value, room - |NameField(p.name)|);
      if v.None? then None else Some(NameField(p.name) + v.value)
  }

  /** The properties written before the first one that fails. */
  function EncodeProps(props: seq<Property>, room: nat): (b: seq<Byte>)
    ensures |b| <= room
    decreases props, 0
  {
    if props == [] then []
    else
      var p := EncodeProperty(props[0], room);
      if p.None? then [] else p.value + EncodeProps(props[1..], room - |p.value|)
  }

  /** One byte always stays free behind the end mark. */
  function EncodeObject(props: seq<Property>, room: nat): (r: Option<seq<Byte>>)
    ensures r.Some? ==> |r.value| < room
    decreases props, 1
  {
    if 4 >= room then None
    else
      var body := EncodeProps(props, room - 1);
      if |body| + 3 >= room - 1 then None else Some([OBJECT] + body + END_MARK)
  }

  // ----- what survives when the buffer is too small -----

  function KeptValue(v: Value, room: nat): Value
    decreases v, 1
  {
    if v.Object? && room > 4 then Object(KeptProps(v.props, room - 1)) else v
  }

  function KeptProperty(p: Property, room: nat): Property
    decreases p, 2
  {
    Property(p.name, KeptValue(p.value, if |NameField(p.name)| <= room then room - |NameField(p.name)| else 0))
  }

  function KeptProps(props: seq<Property>, room: nat): (k: seq<Property>)
    ensures |k| <= |props|
    decreases props, 0
  {
    if props == [] then []
    else
      var p := EncodeProperty(props[0], room);
      if p.None? then [] else [KeptProperty(props[0], room)] + KeptProps(props[1..], room - |p.value|)
  }

  /** t is o with property lists cut short, here or inside. */
  predicate Truncates(t: Value, o: Value)
    decreases o, 1
  {
    if o.Object? then t.Object? && TruncatesAll(t.props, o.props) else t == o
  }

  predicate TruncatesAll(t: seq<Property>, o: seq<Property>)
    decreases o, 0
  {
    t == [] || (o != [] && t[0].name == o[0].name && Truncates(t[0].value, o[0].value) && TruncatesAll(t[1..], o[1..]))
  }

  lemma {:induction false} KeptValueWritten(v: Value, room: nat)
    requires EncodeValue(v, room).Some?
    ensures EncodeValue(v, room) == Some(WireValue(KeptValue(v, room)))
    ensures Plain(v) ==> Plain(KeptValue(v, room))
    ensures Truncates(KeptValue(v, room), v)
    decreases v, 1
  {
    if v.Object? {
      KeptPropsWritten(v.props, room - 1);
    }
  }

  lemma {:induction false} KeptPropertyWritten(p: Property, room: nat)
    requires EncodeProperty(p, room).Some?
    ensures var k := KeptProperty(p, room);
            && EncodeProperty(p, room) == Some(WireProperty(k))
            && k.name == p.name && Truncates(k.value, p.value)
            && (PlainProperty(p) ==> PlainProperty(k))
    decreases p, 2
  {
    if p.value.Null? {
    } else {
      assert |NameField(p.name)| <= room;
      KeptValueWritten(p.value, room - |NameField(p.name)|);
    }
  }

  /** What the encoder writes is the wire form of a recursive truncation of what it was given. */
  lemma {:induction false} KeptPropsWritten(props: seq<Property>, room: nat)
    ensures EncodeProps(props, room) == WireProps(KeptProps(props, room))
    ensures TruncatesAll(KeptProps(props, room), props)
    ensures AllPlain(props) ==> AllPlain(KeptProps(props, room))
    decreases props, 0
  {
    hide EncodeProperty, WireProperty, PlainProperty, KeptProperty, Truncates;
    if props != [] {
      var p := EncodeProperty(props[0], room);
      if p.Some? {
        KeptPropertyWritten(props[0], room);
        KeptPropsWritten(props[1..], room - |p.value|);
        var k := KeptProps(props, room);
        assert k[1..] == KeptProps(props[1..], room - |p.value|);
      }
    }
  }

  // ----- enough room -----

  lemma {:induction false} ValueFits(v: Value, room: nat)
    requires Encodable(v) && |WireValue(v)| + 4 <= room
    ensures EncodeValue(v, room) == Some(WireValue(v)) && KeptValue(v, room) == v
    ensures |WireValue(v)| >= 1
    decreases v, 1
  {
    if v.Object? {
      PropsFit(v.props, room - 1);
    }
  }

  lemma {:induction false} PropertyFits(p: Property, room: nat)
    requires Encodable(p.value) && |WireProperty(p)| + 4 <= room
    ensures EncodeProperty(p, room) == Some(WireProperty(p)) && KeptProperty(p, room) == p
    decreases p, 2
  {
    if p.value.Null? {
    } else {
      ValueFits(p.value, room - |NameField(p.name)|);
    }
  }

  lemma {:induction false} PropsFit(props: seq<Property>, room: nat)
    requires AllEncodable(props) && |WireProps(props)| + 4 <= room
    ensures EncodeProps(props, room) == WireProps(props) && KeptProps(props, room) == props
    decreases props, 0
  {
    hide EncodeProperty, WireProperty, KeptProperty, Encodable;
    if props != [] {
      PropertyFits(props[0], room);
      PropsFit(props[1..], room - |WireProperty(props[0])|);
      assert [props[0]] + props[1..] == props;
    }
  }

  /** An encodable object comes out whole exactly when its wire form leaves a byte of the buffer unused. */
  lemma WholeIffRoom(props: seq<Property>, room: nat)
    requires AllEncodable(props)
    ensures EncodeObject(props, room) == Some(WireObject(props)) <==> |WireObject(props)| < room
  {
    if |WireObject(props)| < room {
      PropsFit(props, room - 1);
    }
  }

  lemma {:induction false} PlainIsEncodable(v: Value)
    requires Plain(v)
    ensures Encodable(v)
    decreases v, 1
  {
    if v.Object? {
      AllPlainEncodable(v.props);
    }
  }

  lemma {:induction false} AllPlainEncodable(props: seq<Property>)
    requires AllPlain(props)
    ensures AllEncodable(props)
    decreases props, 0
  {
    if props != [] {
      PlainIsEncodable(props[0].value);
      AllPlainEncodable(props[1..]);
    }
  }

  /** Encoding then decoding: whenever the encoder returns a result, the decoder reads back the truncated
      object from it, consuming exactly the bytes written whatever follows them; and the object is whole
      when the buffer has a byte more than its wire form. */
  lemma EncodeThenDecode(long: Width, props: seq<Property>, room: nat, s: seq<Byte>)
    requires AllPlain(props) && room + |s| < 0x8000_0000
    ensures var e := EncodeObject(props, room);
            e.Some? ==>
              var kept := KeptProps(props, room - 1);
              && DecodeProperty(long, e.value + s, false) == Done(Property([], Object(kept)), |e.value|)
              && DecodeObject(long, e.value[1..] + s, true, false) == Done(kept, |e.value| - 1)
              && TruncatesAll(kept, props)
    ensures |WireObject(props)| < room ==> EncodeObject(props, room).Some? && KeptProps(props, room - 1) == props
  {
    hide DecodeObject, EncodeProps, KeptProps, WireProps, AllPlain, TruncatesAll;
    var e := EncodeObject(props, room);
    if e.Some? {
      KeptPropsWritten(props, room - 1);
      var kept := KeptProps(props, room - 1);
      var tail := WireProps(kept) + END_MARK + s;
      PropsRead(long, kept, s);
      BehindKind(OBJECT, WireProps(kept), END_MARK, s);
      assert e.value[1..] + s == tail by {
        BehindKind(OBJECT, WireProps(kept), END_MARK, []);
        assert [OBJECT] + WireProps(kept) + END_MARK + [] == e.value;
        assert WireProps(kept) + END_MARK + [] == WireProps(kept) + END_MARK;
      }
      assert (e.value + s)[1..] == tail;
    }
    if |WireObject(props)| < room {
      AllPlainEncodable(props);
      PropsFit(props, room - 1);
    }
  }
}
