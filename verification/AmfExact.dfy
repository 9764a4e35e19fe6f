/** Exactly which objects AMF0 carries faithfully. A property read back costs its name's two length bytes, its
    name and its value; the encoder writes less for a property without a name and for a null, so such an object
    cannot come back from the bytes it was written to. */
module AmfExact {
  import opened Bytes
  import opened AmfCodec

  /** The fewest bytes a value can be read back from. */
  function Cost(v: Value): (n: nat)
    decreases v, 1
  {
    if v.Object? then 4 + CostAll(v.props) else |WireValue(v)|
  }

  function CostAll(props: seq<Property>): (n: nat)
    decreases props, 0
  {
    if props == [] then 0 else 2 + |props[0].name| + Cost(props[0].value) + CostAll(props[1..])
  }

  /** Names that a 16-bit length can state, all the way down. */
  predicate ShortNames(v: Value)
    decreases v, 1
  {
    v.Object? ==> AllShortNames(v.props)
  }

  predicate AllShortNames(props: seq<Property>)
    decreases props, 0
  {
    props == [] || (|props[0].name| < 0x1_0000 && ShortNames(props[0].value) && AllShortNames(props[1..]))
  }

  // ----- what a successful decode has consumed -----

  lemma {:induction false} BodyCosts(long: Width, kind: Byte, data: seq<Byte>)
    requires |data| < 0x8000_0000
    requires DecodeBody(long, kind, data).Done? && DecodeBody(long, kind, data).used < |data|
    ensures var r := DecodeBody(long, kind, data); 1 + r.used >= Cost(r.value) && ShortNames(r.value)
    decreases |data|, 3
  {
    hide DecodeObject, DecodeLongString, AllShortNames;
    if kind == OBJECT {
      ObjectCosts(long, data, false);
    }
  }

  lemma {:induction false} PropertyCosts(long: Width, data: seq<Byte>)
    requires |data| < 0x8000_0000
    requires DecodeProperty(long, data, true).Done? && DecodeProperty(long, data, true).used < |data|
    ensures var r := DecodeProperty(long, data, true);
            r.used >= 2 + |r.value.name| + Cost(r.value.value) && |r.value.name| < 0x1_0000 && ShortNames(r.value.value)
    decreases |data|, 1
  {
    hide DecodeBody, Cost, ShortNames;
    var n := 2 + FromBe16(data, 0);
    BodyCosts(long, data[n], data[n + 1..]);
  }

  lemma {:induction false} ObjectCosts(long: Width, data: seq<Byte>, failed: bool)
    requires |data| < 0x8000_0000
    requires DecodeObject(long, data, true, failed).Done? && DecodeObject(long, data, true, failed).used < |data|
    ensures var r := DecodeObject(long, data, true, failed); r.used >= CostAll(r.value) + 3 && AllShortNames(r.value)
    decreases |data|, if failed then 0 else 2
  {
    hide DecodeProperty, Cost, ShortNames;
    if failed {
      ResyncFindsFirstMark(long, data, true);
    } else if |data| >= 3 && FromBe24(data, 0) == OBJECT_END {
    } else {
      match DecodeProperty(long, data, true)
      case Failed =>
        ObjectCosts(long, data, true);
      case Done(p, n) =>
        var rest := DecodeObject(long, data[n..], true, false);
        PropertyCosts(long, data);
        ObjectCosts(long, data[n..], false);
        assert ([p] + rest.value)[1..] == rest.value;
    }
  }

  // ----- what the encoder writes -----

  lemma {:induction false} ValueWritesLess(v: Value)
    requires Encodable(v) && ShortNames(v)
    ensures |WireValue(v)| <= Cost(v)
    ensures |WireValue(v)| == Cost(v) && !v.Null? ==> Plain(v)
    decreases v, 1
  {
    if v.Object? {
      WritesLess(v.props);
    }
  }

  lemma {:induction false} WritesLess(props: seq<Property>)
    requires AllEncodable(props) && AllShortNames(props)
    ensures |WireProps(props)| <= CostAll(props)
    ensures |WireProps(props)| == CostAll(props) ==> AllPlain(props)
    decreases props, 0
  {
    if props != [] {
      ValueWritesLess(props[0].value);
      WritesLess(props[1..]);
    }
  }

  /** An encodable object comes back from its wire form, whatever follows it there, if and only if it is plain:
      every property, at every depth, has a name of 1 to 65535 bytes and is not null. */
  lemma RoundTripIffPlain(long: Width, props: seq<Property>)
    requires AllEncodable(props) && |WireProps(props)| + 4 < 0x8000_0000
    ensures AllPlain(props) <==>
            forall s: seq<Byte> :: |WireProps(props)| + 3 + |s| < 0x8000_0000 ==>
              DecodeObject(long, WireProps(props) + END_MARK + s, true, false) == Done(props, |WireProps(props)| + 3)
  {
    hide DecodeObject, WireProps, AllPlain, AllEncodable, AllShortNames;
    if AllPlain(props) {
      forall s: seq<Byte> | |WireProps(props)| + 3 + |s| < 0x8000_0000
        ensures DecodeObject(long, WireProps(props) + END_MARK + s, true, false) == Done(props, |WireProps(props)| + 3)
      {
        PropsRead(long, props, s);
      }
    }
    var zero: seq<Byte> := [0];
    var data := WireProps(props) + END_MARK + zero;
    if DecodeObject(long, data, true, false) == Done(props, |WireProps(props)| + 3) {
      ObjectCosts(long, data, false);
      WritesLess(props);
    }
  }

  /** An object with a null never comes back as what it was, whatever follows. */
  lemma NullNeverComesBack(long: Width, name: AVal, s: seq<Byte>)
    requires |s| < 0x7000_0000
    ensures var w, p := WireObject([Property(name, Null)]), Property([], Object([Property(name, Null)]));
            |w| == 5 && DecodeProperty(long, w + s, false) != Done(p, |w|)
  {
    hide DecodeObject, WireObject;
    var p := Property(name, Null);
    var w := WireObject([p]);
    OneNull(p);
    if s == [] {
      NullPropertyIsLost(long, name, s);
    } else {
      var data := (w + s)[1..];
      assert [p][1..] == [];
      if DecodeObject(long, data, true, false) == Done([p], 4) {
        ObjectCosts(long, data, false);
      }
    }
  }
}
