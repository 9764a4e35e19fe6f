/** AMF0 objects, their wire form and the decoder of librtmp/amf.c. A number is its eight bytes in wire
    order; what they mean as a double plays no part in the codec. */
module AmfCodec {
  import opened Bytes

  /** av_len is a C int. */
  type AVal = s: seq<Byte> | |s| < 0x8000_0000 witness []
  type Double = s: seq<Byte> | |s| == 8 witness [0, 0, 0, 0, 0, 0, 0, 0]

  const NUMBER: Byte := 0
  const BOOLEAN: Byte := 1
  const STRING: Byte := 2
  const OBJECT: Byte := 3
  const NULL: Byte := 5
  const UNDEFINED: Byte := 6
  const ECMA_ARRAY: Byte := 8
  const OBJECT_END: Byte := 9
  const STRICT_ARRAY: Byte := 10
  const DATE: Byte := 11
  const LONG_STRING: Byte := 12
  const UNSUPPORTED: Byte := 13
  const AVMPLUS: Byte := 17

  const END_MARK: seq<Byte> := [0, 0, OBJECT_END]

  datatype Value =
    | Number(number: Double)
    | Boolean(boolean: bool)
    | String(aval: AVal)
    | Object(props: seq<Property>)
    | Null
    | Date(time: Double, utcOffset: U16)
    | Invalid

  datatype Property = Property(name: AVal, value: Value)

  // ----- the wire form, free of any size limit -----

  /** Two length bytes and the name; a nameless property has neither. */
  function NameField(name: AVal): seq<Byte> {
    if name == [] then [] else [|name| / 0x100 % 0x100, |name| % 0x100] + name
  }

  function WireString(s: AVal): seq<Byte> {
    if |s| < 0x1_0000 then [STRING] + Be16(|s|) + s else [LONG_STRING] + Be32(|s|) + s
  }

  /** Dates and invalid properties have no encoder and so no wire form. */
  function WireValue(v: Value): seq<Byte>
    decreases v, 1
  {
    match v
    case Number(d) => [NUMBER] + d
    case Boolean(b) => [BOOLEAN, if b then 1 else 0]
    case String(s) => WireString(s)
    case Object(props) => WireObject(props)
    case Null => [NULL]
    case Date(_, _) => []
    case Invalid => []
  }

  /** A null is written without its name. */
  function WireProperty(p: Property): seq<Byte>
    decreases p, 2
  {
    if p.value.Null? then [NULL] else NameField(p.name) + WireValue(p.value)
  }

  function WireProps(props: seq<Property>): seq<Byte>
    decreases props, 0
  {
    if props == [] then [] else WireProperty(props[0]) + WireProps(props[1..])
  }

  function WireObject(props: seq<Property>): seq<Byte>
    decreases props, 1
  {
    [OBJECT] + WireProps(props) + END_MARK
  }

  /** Values the encoder knows how to write, all the way down. */
  predicate Encodable(v: Value)
    decreases v, 1
  {
    match v
    case Object(props) => AllEncodable(props)
    case Date(_, _) => false
    case Invalid => false
    case _ => true
  }

  predicate AllEncodable(props: seq<Property>)
    decreases props, 0
  {
    props == [] || (Encodable(props[0].value) && AllEncodable(props[1..]))
  }

  /** Objects AMF0 can carry faithfully: every property is named, in at most 65535 bytes, and none is null. */
  predicate Plain(v: Value)
    decreases v, 1
  {
    match v
    case Number(_) => true
    case Boolean(_) => true
    case String(_) => true
    case Object(props) => AllPlain(props)
    case _ => false
  }

  predicate PlainProperty(p: Property)
    decreases p, 2
  {
    0 < |p.name| < 0x1_0000 && Plain(p.value)
  }

  predicate AllPlain(props: seq<Property>)
    decreases props, 0
  {
    props == [] || (PlainProperty(props[0]) && AllPlain(props[1..]))
  }

  // ----- the decoder -----

  /** How wide a C long is: 32 bits on armeabi-v7a and x86, 64 on arm64-v8a. */
  datatype Width = Bits32 | Bits64

  /** -1 is Failed. ECMA arrays, strict arrays and the switch to AMF3 are Unmodelled. Astray means that the
      input does not determine what happens: a string was taken that does not lie in it, or its length was. */
  datatype Decoded<+T> = Done(value: T, used: nat) | Failed | Unmodelled | Astray

  function DecodeString(data: seq<Byte>): (r: Decoded<Value>)
    requires |data| < 0x8000_0000
    ensures r.Done? ==> r.used <= |data|
  {
    if |data| < 2 || |data| < FromBe16(data, 0) + 2 then Failed
    else Done(String(data[2..2 + FromBe16(data, 0)]), 2 + FromBe16(data, 0))
  }

  /** n as a C int, or a C long of 32 bits. */
  function AsInt32(n: int): (i: int)
    ensures -0x8000_0000 <= i < 0x8000_0000
  {
    (n + 0x8000_0000) % TWO32 - 0x8000_0000
  }

  /** The test on the length of a long string, nSize < (long)nStringSize + 4 in C: with 32 bits the right side
      wraps around. */
  predicate Accepts(long: Width, nSize: nat, nStringSize: U32) {
    nSize >= if long.Bits64? then nStringSize + 4 else AsInt32(nStringSize + 4)
  }

  /** nSize after a long string, reduced in unsigned arithmetic. */
  function BytesLeft(nSize: nat, nStringSize: U32): int {
    AsInt32(nSize - (4 + nStringSize))
  }

  /** With fewer than four bytes left the length is read beyond the input; 64 bits refuse it whatever it is. */
  function DecodeLongString(long: Width, data: seq<Byte>): (r: Decoded<Value>)
    requires |data| < 0x8000_0000
    ensures r.Done? ==> r.value.String? && r.used == 4 + |r.value.aval| <= |data|
    ensures long.Bits64? ==> !r.Astray?
  {
    if |data| < 4 then if long.Bits64? then Failed else Astray
    else
      var n := FromBe32(data, 0);
      if !Accepts(long, |data|, n) then Failed
      else if 4 + n > |data| then Astray
      else Done(String(data[4..4 + n]), |data| - BytesLeft(|data|, n))
  }

  /** The switch on the type byte, applied to what follows that byte. */
  function DecodeBody(long: Width, kind: Byte, data: seq<Byte>): (r: Decoded<Value>)
    requires |data| < 0x8000_0000
    ensures r.Done? ==> r.used <= |data|
    ensures long.Bits64? ==> !r.Astray?
    decreases |data|, 3
  {
    if kind == NUMBER then
      if |data| < 8 then Failed else Done(Number(data[..8]), 8)
    else if kind == BOOLEAN then
      if |data| < 1 then Failed else Done(Boolean(data[0] != 0), 1)
    else if kind == STRING then DecodeString(data)
    else if kind == OBJECT then
      AsValue(DecodeObject(long, data, true, false))
    else if kind == NULL || kind == UNDEFINED || kind == UNSUPPORTED then Done(Null, 0)
    else if kind == DATE then
      if |data| < 10 then Failed else Done(Date(data[..8], FromBe16(data, 8)), 10)
    else if kind == LONG_STRING then DecodeLongString(long, data)
    else if kind == ECMA_ARRAY || kind == STRICT_ARRAY || kind == AVMPLUS then Unmodelled
    else Failed
  }

  /** A successful property decode consumes at least one byte and never more than there are. */
  function DecodeProperty(long: Width, data: seq<Byte>, named: bool): (r: Decoded<Property>)
    requires |data| < 0x8000_0000
    ensures r.Done? ==> 1 <= r.used <= |data|
    ensures long.Bits64? ==> !r.Astray?
    decreases |data|, 1
  {
    if |data| == 0 || (named && |data| < 4) then Failed
    else if named && FromBe16(data, 0) > |data| - 2 then Failed
    else
      var n := if named then 2 + FromBe16(data, 0) else 0;
      if n == |data| then Failed
      else
        var r := DecodeBody(long, data[n], data[n + 1..]);
        match r
        case Done(v, used) => Done(Property(if named then data[2..n] else [], v), n + 1 + used)
        case Failed => Failed
        case Unmodelled => Unmodelled
        case Astray => Astray
  }

  /** The properties found from here on. After a bad property (failed) bytes are dropped one by one until
      the end mark turns up, which also forgives the error; running out of bytes without one is a failure
      only after an error. The measure is the bytes left and then the error flag. */
  function DecodeObject(long: Width, data: seq<Byte>, named: bool, failed: bool): (r: Decoded<seq<Property>>)
    requires |data| < 0x8000_0000
    ensures r.Done? ==> r.used <= |data|
    ensures long.Bits64? ==> !r.Astray?
    decreases |data|, if failed then 0 else 2
  {
    if |data| == 0 then if failed then Failed else Done([], 0)
    else if |data| >= 3 && FromBe24(data, 0) == OBJECT_END then Done([], 3)
    else if failed then Later([], 1, DecodeObject(long, data[1..], named, true))
    else
      var p := DecodeProperty(long, data, named);
      match p
      case Failed => DecodeObject(long, data, named, true)
      case Unmodelled => Unmodelled
      case Astray => Astray
      case Done(prop, n) => Later([prop], n, DecodeObject(long, data[n..], named, false))
  }

  function AsValue(r: Decoded<seq<Property>>): Decoded<Value> {
    match r
    case Done(props, n) => Done(Object(props), n)
    case Failed => Failed
    case Unmodelled => Unmodelled
    case Astray => Astray
  }

  /** A result found after properties already read from n bytes. */
  function Later(props: seq<Property>, n: nat, r: Decoded<seq<Property>>): (d: Decoded<seq<Property>>) {
    if r.Done? then Done(props + r.value, n + r.used) else r
  }

  // ----- one turn of the decoder's loop -----

  predicate EndsHere(data: seq<Byte>) {
    |data| >= 3 && FromBe24(data, 0) == OBJECT_END
  }

  lemma StopsAtMark(long: Width, data: seq<Byte>, named: bool, failed: bool)
    requires |data| < 0x8000_0000 && EndsHere(data)
    ensures DecodeObject(long, data, named, failed) == Done([], 3)
  {
    hide DecodeProperty;
  }

  lemma DropsByte(long: Width, data: seq<Byte>, named: bool)
    requires 0 < |data| < 0x8000_0000 && !EndsHere(data)
    ensures DecodeObject(long, data, named, true) == Later([], 1, DecodeObject(long, data[1..], named, true))
  {
    hide DecodeProperty;
  }

  lemma FailsOver(long: Width, data: seq<Byte>, named: bool)
    requires 0 < |data| < 0x8000_0000 && !EndsHere(data) && DecodeProperty(long, data, named).Failed?
    ensures DecodeObject(long, data, named, false) == DecodeObject(long, data, named, true)
  {
    hide DecodeProperty;
  }

  lemma TakesProperty(long: Width, data: seq<Byte>, named: bool)
    requires 0 < |data| < 0x8000_0000 && !EndsHere(data) && DecodeProperty(long, data, named).Done?
    ensures var p := DecodeProperty(long, data, named);
            DecodeObject(long, data, named, false)
            == Later([p.value], p.used, DecodeObject(long, data[p.used..], named, false))
  {
    hide DecodeProperty;
  }

  // ----- decoding the wire form -----

  lemma EndMarkReads(s: seq<Byte>)
    ensures FromBe24(END_MARK + s, 0) == OBJECT_END
  {
  }

  lemma ShortStringReads(v: AVal, s: seq<Byte>)
    requires |v| < 0x1_0000 && |Be16(|v|) + v + s| < 0x8000_0000
    ensures DecodeString(Be16(|v|) + v + s) == Done(String(v), 2 + |v|)
  {
    var w := Be16(|v|) + v + s;
    Sections(Be16(|v|), v, s, []);
    assert w + [] == w;
    WordAt16(w, 0, |v|);
  }

  lemma LongStringReads(long: Width, v: AVal, s: seq<Byte>)
    requires |Be32(|v|) + v + s| < 0x8000_0000
    ensures DecodeLongString(long, Be32(|v|) + v + s) == Done(String(v), 4 + |v|)
  {
    var w := Be32(|v|) + v + s;
    Sections(Be32(|v|), v, s, []);
    assert w + [] == w;
    WordAt32(w, 0, |v|);
  }

  lemma BehindKind(kind: Byte, a: seq<Byte>, b: seq<Byte>, c: seq<Byte>)
    ensures var w := [kind] + a + b + c; w[0] == kind && w[1..] == a + b + c
  {
    ConcatAssoc([kind], a, b);
    ConcatAssoc([kind], a + b, c);
  }

  lemma StringReads(long: Width, v: AVal, s: seq<Byte>)
    requires |WireString(v) + s| < 0x8000_0000
    ensures var w := WireString(v) + s;
            DecodeBody(long, w[0], w[1..]) == Done(String(v), |WireString(v)| - 1)
  {
    hide DecodeObject, DecodeString, DecodeLongString, Be16, Be32;
    var w := WireString(v) + s;
    if |v| < 0x1_0000 {
      BehindKind(STRING, Be16(|v|), v, s);
      ShortStringReads(v, s);
    } else {
      BehindKind(LONG_STRING, Be32(|v|), v, s);
      LongStringReads(long, v, s);
    }
  }

  lemma {:induction false} ValueReads(long: Width, v: Value, s: seq<Byte>)
    requires Plain(v) && |WireValue(v) + s| < 0x8000_0000
    ensures |WireValue(v)| >= 1
    ensures var w := WireValue(v) + s; DecodeBody(long, w[0], w[1..]) == Done(v, |WireValue(v)| - 1)
    decreases v, 1
  {
    var w := WireValue(v) + s;
    match v
    case Number(d) =>
      assert w[1..] == d + s;
    case Boolean(b) =>
    case String(t) =>
      StringReads(long, t, s);
    case Object(props) =>
      assert w[1..] == WireProps(props) + END_MARK + s;
      PropsRead(long, props, s);
  }

  lemma {:induction false} PropertyReads(long: Width, p: Property, s: seq<Byte>)
    requires PlainProperty(p) && |WireProperty(p) + s| < 0x8000_0000
    ensures var w := WireProperty(p) + s;
            DecodeProperty(long, w, true) == Done(p, |WireProperty(p)|) && FromBe16(w, 0) != 0 && |w| >= 4
    decreases p, 2
  {
    hide DecodeBody, WireValue;
    assert !p.value.Null?;
    var head: seq<Byte> := [|p.name| / 0x100 % 0x100, |p.name| % 0x100];
    var v := WireValue(p.value);
    var w := WireProperty(p) + s;
    assert NameField(p.name) == head + p.name;
    assert WireProperty(p) == head + p.name + v;
    Sections(head, p.name, v, s);
    ValueReads(long, p.value, s);
    var n := 2 + |p.name|;
    assert FromBe16(w, 0) == |p.name| by {
      assert head == Be16(|p.name|);
      WordAt16(w, 0, |p.name|);
    }
    assert w[n..] == v + s;
    assert w[n] == (v + s)[0] && w[n + 1..] == (v + s)[1..];
  }

  /** The decoder reads a plain object's wire form back, whatever follows it, consuming exactly that form. */
  lemma {:induction false} PropsRead(long: Width, props: seq<Property>, s: seq<Byte>)
    requires AllPlain(props) && |WireProps(props) + END_MARK + s| < 0x8000_0000
    ensures DecodeObject(long, WireProps(props) + END_MARK + s, true, false) == Done(props, |WireProps(props)| + 3)
    decreases props, 0
  {
    hide DecodeProperty, WireProperty, PlainProperty, WireObject;
    var w := WireProps(props) + END_MARK + s;
    if props == [] {
      EndMarkReads(s);
      assert w == END_MARK + s;
    } else {
      var a, b := WireProperty(props[0]), WireProps(props[1..]);
      var rest := b + END_MARK + s;
      assert w == a + rest;
      PropertyReads(long, props[0], rest);
      PropsRead(long, props[1..], s);
      assert w[|a|..] == rest;
      assert FromBe16(w, 0) != 0 ==> FromBe24(w, 0) != OBJECT_END;
      assert [props[0]] + props[1..] == props;
    }
  }

  // ----- a list of nameless values, as in the body of a remote call -----

  function WireValues(vals: seq<Value>): seq<Byte> {
    if vals == [] then [] else WireValue(vals[0]) + WireValues(vals[1..])
  }

  function Nameless(vals: seq<Value>): (props: seq<Property>)
    ensures |props| == |vals|
  {
    if vals == [] then [] else [Property([], vals[0])] + Nameless(vals[1..])
  }

  /** What can stand in such a list: without a name a null costs one byte both ways. */
  predicate Readable(v: Value) {
    Plain(v) || v.Null?
  }

  /** The type byte of a number is 0: two bytes 0, 9 behind it complete an end mark. */
  predicate LooksLikeEnd(v: Value) {
    v.Number? && v.number[0] == 0 && v.number[1] == OBJECT_END
  }

  function UpToEndLike(vals: seq<Value>): (k: nat)
    ensures k <= |vals| && (k < |vals| ==> LooksLikeEnd(vals[k]))
    ensures forall i :: 0 <= i < k ==> !LooksLikeEnd(vals[i])
  {
    if vals == [] || LooksLikeEnd(vals[0]) then 0 else 1 + UpToEndLike(vals[1..])
  }

  lemma EndLikeOnly(v: Value, s: seq<Byte>)
    requires Readable(v)
    ensures var w := WireValue(v) + s;
            && |w| >= 1
            && ((|w| >= 3 && FromBe24(w, 0) == OBJECT_END) <==> LooksLikeEnd(v))
  {
    hide WireProps, AllPlain;
  }

  lemma NamelessReads(long: Width, v: Value, s: seq<Byte>)
    requires Readable(v) && |WireValue(v) + s| < 0x8000_0000
    ensures DecodeProperty(long, WireValue(v) + s, false) == Done(Property([], v), |WireValue(v)|)
  {
    hide DecodeObject, DecodeLongString, WireObject;
    if v.Null? {
      assert WireValue(v) + s == [NULL] + s;
    } else {
      ValueReads(long, v, s);
    }
  }

  /** Values written one after another read back in order up to the first number whose encoding starts
      like an end mark; there the decoder stops, without an error, behind those three bytes. */
  lemma {:induction false} ValuesRead(long: Width, vals: seq<Value>)
    requires (forall v :: v in vals ==> Readable(v)) && |WireValues(vals)| < 0x8000_0000
    ensures var r, k := DecodeObject(long, WireValues(vals), false, false), UpToEndLike(vals);
            && r.Done? && r.value == Nameless(vals)[..k]
            && (k == |vals| ==> r.used == |WireValues(vals)|)
    decreases vals
  {
    hide WireValue, DecodeProperty, LooksLikeEnd, Readable;
    if vals != [] {
      var v, rest := vals[0], WireValues(vals[1..]);
      var w := WireValues(vals);
      assert w == WireValue(v) + rest;
      EndLikeOnly(v, rest);
      if !LooksLikeEnd(v) {
        NamelessReads(long, v, rest);
        ValuesRead(long, vals[1..]);
        assert w[|WireValue(v)|..] == rest;
      }
    }
  }

  /** Every value comes back exactly when none of them is such a number. */
  lemma ValuesReadIff(long: Width, vals: seq<Value>)
    requires (forall v :: v in vals ==> Readable(v)) && |WireValues(vals)| < 0x8000_0000
    ensures DecodeObject(long, WireValues(vals), false, false) == Done(Nameless(vals), |WireValues(vals)|)
            <==> forall v :: v in vals ==> !LooksLikeEnd(v)
  {
    hide DecodeObject, LooksLikeEnd, Readable, WireValues;
    ValuesRead(long, vals);
    var k := UpToEndLike(vals);
    if k < |vals| {
      assert vals[k] in vals;
    } else {
      assert Nameless(vals)[..k] == Nameless(vals);
    }
  }

  // ----- finding the end mark again after an error -----

  predicate MarkAt(data: seq<Byte>, i: nat) {
    i + 3 <= |data| && data[i..i + 3] == END_MARK
  }

  lemma MarkReads(data: seq<Byte>)
    ensures MarkAt(data, 0) ==> FromBe24(data, 0) == OBJECT_END
  {
    if MarkAt(data, 0) {
      var m := data[0..3];
      assert data[0] == m[0] && data[1] == m[1] && data[2] == m[2];
    }
  }

  lemma MarkShifts(data: seq<Byte>, i: nat)
    requires data != [] && i > 0
    ensures MarkAt(data, i) <==> MarkAt(data[1..], i - 1)
  {
    if i + 3 <= |data| {
      assert data[i..i + 3] == data[1..][i - 1..i + 2];
    }
  }

  lemma NothingLeft(long: Width, named: bool, failed: bool)
    ensures DecodeObject(long, [], named, failed) == if failed then Failed else Done([], 0)
  {
  }

  /** After an error the decode succeeds exactly when an end mark still follows, stopping behind the first. */
  lemma {:induction false} ResyncFindsFirstMark(long: Width, data: seq<Byte>, named: bool)
    requires |data| < 0x8000_0000
    ensures var r := DecodeObject(long, data, named, true);
            && (r.Done? <==> exists i :: MarkAt(data, i))
            && (r.Done? ==> r.value == [] && r.used >= 3 && MarkAt(data, r.used - 3)
                            && forall i :: 0 <= i < r.used - 3 ==> !MarkAt(data, i))
    decreases |data|
  {
    hide DecodeProperty, DecodeObject;
    if |data| == 0 {
      NothingLeft(long, named, true);
    } else if EndsHere(data) {
      StopsAtMark(long, data, named, true);
      assert MarkAt(data, 0);
    } else {
      DropsByte(long, data, named);
      MarkReads(data);
      var rest := data[1..];
      ResyncFindsFirstMark(long, rest, named);
      forall i: nat | i > 0 ensures MarkAt(data, i) <==> MarkAt(rest, i - 1) {
        MarkShifts(data, i);
      }
      if i: nat :| MarkAt(data, i) {
        assert MarkAt(rest, i - 1);
      }
      var r := DecodeObject(long, rest, named, true);
      if r.Done? {
        assert MarkAt(data, r.used - 2);
        assert [] + r.value == [];
      }
    }
  }

  lemma NullIsNoName(long: Width, data: seq<Byte>)
    requires 4 <= |data| <= 1282 && data[0] == NULL && data[1] == 0
    ensures FromBe24(data, 0) != OBJECT_END && DecodeProperty(long, data, true) == Failed
  {
    hide DecodeBody;
    assert FromBe16(data, 0) == 0x500;
  }

  lemma NullMisread(long: Width, data: seq<Byte>, s: seq<Byte>)
    requires 4 <= |data| <= 1282 && data[0] == NULL && data[1..] == END_MARK + s
    ensures DecodeObject(long, data, true, false) == Done([], 4)
  {
    hide DecodeProperty, DecodeObject;
    assert data[1] == data[1..][0];
    NullIsNoName(long, data);
    FailsOver(long, data, true);
    DropsByte(long, data, true);
    EndMarkReads(s);
    StopsAtMark(long, END_MARK + s, true, true);
    var none: seq<Property> := [];
    assert none + none == none;
  }

  lemma ObjectBody(long: Width, w: seq<Byte>)
    requires |w| < 0x8000_0000 && w != [] && w[0] == OBJECT
    ensures var r := DecodeObject(long, w[1..], true, false);
            r.Done? ==> DecodeProperty(long, w, false) == Done(Property([], Object(r.value)), 1 + r.used)
  {
    hide DecodeObject;
  }

  lemma OneNull(p: Property)
    requires p.value.Null?
    ensures WireObject([p]) == [OBJECT, NULL] + END_MARK
  {
    hide WireValue;
    assert [p][1..] == [];
    assert WireProps([]) == [];
    assert WireProps([p]) == [NULL];
    assert [OBJECT] + [NULL] == [OBJECT, NULL];
  }

  lemma NullObjectMisread(long: Width, w: seq<Byte>, s: seq<Byte>)
    requires w == [OBJECT, NULL] + END_MARK + s && |w| <= 1283
    ensures DecodeProperty(long, w, false) == Done(Property([], Object([])), 5)
  {
    hide DecodeProperty, DecodeObject;
    var data := w[1..];
    assert data[1..] == END_MARK + s;
    NullMisread(long, data, s);
    ObjectBody(long, w);
  }

  /** A null property does not survive: it is written as a bare type byte, which the decoder takes for the
      start of a name; it skips to the end mark and reports success on an object that has lost it. */
  lemma NullPropertyIsLost(long: Width, name: AVal, s: seq<Byte>)
    requires |s| <= 1278
    ensures var w := WireObject([Property(name, Null)]);
            |w| == 5 && DecodeProperty(long, w + s, false) == Done(Property([], Object([])), 5)
  {
    hide DecodeProperty, WireObject;
    OneNull(Property(name, Null));
    NullObjectMisread(long, WireObject([Property(name, Null)]) + s, s);
  }
}
