/** The AMF0 encoder and decoder of librtmp/amf.c as they run: the encoder advancing through a fixed buffer,
    the decoder looping over what is left of its input. Both are proved against the functions of AmfEncoder
    and AmfCodec. */
module AmfBuffers {
  import opened Bytes
  import opened AmfIntegers
  import opened AmfCodec
  import opened AmfEncoder

  /** A call on [pos, end) of the buffer that had to write e: the result pointer stands behind e, or is NULL.
      Behind that pointer the call may have left anything, but nothing outside [pos, end) has changed. */
  ghost predicate Wrote(was: seq<Byte>, now: seq<Byte>, pos: nat, end: nat, e: Option<seq<Byte>>, next: Option<nat>) {
    && |now| == |was| && pos <= end <= |was|
    && now[..pos] == was[..pos] && now[end..] == was[end..]
    && match e
       case None => next == None
       case Some(b) => next == Some(pos + |b|) && pos + |b| <= end && now[pos..pos + |b|] == b
  }

  lemma SpliceWrote(was: seq<Byte>, pos: nat, end: nat, b: seq<Byte>)
    requires pos + |b| <= end <= |was|
    ensures Wrote(was, Splice(was, pos, b), pos, end, Some(b), Some(pos + |b|))
  {
    var now := Splice(was, pos, b);
    assert now[end..] == was[end..] by {
      forall k | end <= k < |was| ensures now[k] == was[k] {
        assert now[k] == was[pos + |b|..][k - pos - |b|];
      }
    }
  }

  lemma WroteOn(was: seq<Byte>, mid: seq<Byte>, now: seq<Byte>, pos: nat, end: nat, a: seq<Byte>, e: Option<seq<Byte>>,
                next: Option<nat>)
    requires Wrote(was, mid, pos, end, Some(a), Some(pos + |a|)) && Wrote(mid, now, pos + |a|, end, e, next)
    ensures Wrote(was, now, pos, end, if e.None? then None else Some(a + e.value), next)
    ensures e.None? ==> Wrote(was, now, pos, end, Some(a), Some(pos + |a|))
  {
    var n := pos + |a|;
    assert now[..pos] == now[..n][..pos] && mid[..pos] == mid[..n][..pos];
    assert now[pos..n] == now[..n][pos..] && mid[pos..n] == mid[..n][pos..];
    if e.Some? {
      var m := n + |e.value|;
      assert now[pos..m] == now[pos..n] + now[n..m];
    }
  }

  lemma WroteFails(was: seq<Byte>, mid: seq<Byte>, pos: nat, end: nat, a: seq<Byte>)
    requires Wrote(was, mid, pos, end, Some(a), Some(pos + |a|))
    ensures Wrote(was, mid, pos, end, None, None)
  {
  }

  function StringHead(bv: AVal): (b: seq<Byte>) {
    if |bv| < 0x1_0000 then [STRING] + Be16(|bv|) else [LONG_STRING] + Be32(|bv|)
  }

  /** The type byte. */
  method EncodeKindAt(mem: array<Byte>, output: nat, outend: nat, kind: Byte) returns (next: nat)
    requires output < outend <= mem.Length
    modifies mem
    ensures next == output + 1
    ensures mem[..] == Splice(old(mem[..]), output, [kind])
    ensures Wrote(old(mem[..]), mem[..], output, outend, Some([kind]), Some(next))
  {
    ghost var was := mem[..];
    mem[output] := kind;
    SpliceAt(was, output, [kind], mem[..]);
    SpliceWrote(was, output, outend, [kind]);
    next := output + 1;
  }

  method EncodeStringHeadAt(mem: array<Byte>, output: nat, outend: nat, bv: AVal) returns (next: nat)
    requires output + 5 <= outend <= mem.Length
    modifies mem
    ensures next == output + |StringHead(bv)| <= output + 5
    ensures mem[..] == Splice(old(mem[..]), output, StringHead(bv))
  {
    hide Splice, Wrote, Be16, Be32;
    ghost var was := mem[..];
    var at := EncodeKindAt(mem, output, outend, if |bv| < 65536 then STRING else LONG_STRING);
    var after: Option<nat>;
    if |bv| < 65536 {
      after := EncodeInt16(mem, at, outend, |bv|);
      SpliceTwice(was, output, [STRING], Be16(|bv|));
    } else {
      after := EncodeInt32(mem, at, outend, |bv|);
      SpliceTwice(was, output, [LONG_STRING], Be32(|bv|));
    }
    next := after.value;
  }

  method EncodeStringAt(mem: array<Byte>, output: nat, outend: nat, bv: AVal) returns (next: Option<nat>)
    requires output <= outend <= mem.Length
    modifies mem
    ensures Wrote(old(mem[..]), mem[..], output, outend, EncodeString(bv, outend - output), next)
  {
    if (|bv| < 65536 && output + 1 + 2 + |bv| > outend) || output + 1 + 4 + |bv| > outend {
      return None;
    }
    hide Splice, Wrote;
    ghost var was := mem[..];
    var at := EncodeStringHeadAt(mem, output, outend, bv);
    Copy(mem, at, bv);
    SpliceTwice(was, output, StringHead(bv), bv);
    next := Some(at + |bv|);
    assert StringHead(bv) + bv == WireString(bv);
    SpliceWrote(was, output, outend, WireString(bv));
  }

  method EncodeNumberAt(mem: array<Byte>, output: nat, outend: nat, d: Double) returns (next: Option<nat>)
    requires output <= outend <= mem.Length
    modifies mem
    ensures Wrote(old(mem[..]), mem[..], output, outend, EncodeValue(Number(d), outend - output), next)
  {
    if output + 1 + 8 > outend {
      return None;
    }
    ghost var was := mem[..];
    var at := EncodeKindAt(mem, output, outend, NUMBER);
    Copy(mem, at, d);
    SpliceTwice(was, output, [NUMBER], d);
    SpliceWrote(was, output, outend, [NUMBER] + d);
    return Some(output + 9);
  }

  method EncodeBooleanAt(mem: array<Byte>, output: nat, outend: nat, b: bool) returns (next: Option<nat>)
    requires output <= outend <= mem.Length
    modifies mem
    ensures Wrote(old(mem[..]), mem[..], output, outend, EncodeValue(Boolean(b), outend - output), next)
  {
    if output + 2 > outend {
      return None;
    }
    ghost var was := mem[..];
    mem[output] := BOOLEAN;
    mem[output + 1] := if b then 1 else 0;
    SpliceAt(was, output, [BOOLEAN, if b then 1 else 0], mem[..]);
    SpliceWrote(was, output, outend, [BOOLEAN, if b then 1 else 0]);
    return Some(output + 2);
  }

  /** The length bytes and the name, when there is one. */
  method EncodeNameAt(mem: array<Byte>, pBuffer: nat, pBufEnd: nat, name: AVal) returns (next: nat)
    requires pBuffer + |name| + 3 < pBufEnd <= mem.Length
    modifies mem
    ensures next == pBuffer + |NameField(name)|
    ensures Wrote(old(mem[..]), mem[..], pBuffer, pBufEnd, Some(NameField(name)), Some(next))
  {
    ghost var was := mem[..];
    next := pBuffer;
    if |name| != 0 {
      mem[pBuffer] := |name| / 0x100 % 0x100;
      mem[pBuffer + 1] := |name| % 0x100;
      ghost var head: seq<Byte> := [|name| / 0x100 % 0x100, |name| % 0x100];
      SpliceAt(was, pBuffer, head, mem[..]);
      Copy(mem, pBuffer + 2, name);
      SpliceTwice(was, pBuffer, head, name);
      next := pBuffer + 2 + |name|;
    }
    SpliceWrote(was, pBuffer, pBufEnd, NameField(name));
  }

  method EncodeValueAt(mem: array<Byte>, pBuffer: nat, pBufEnd: nat, v: Value) returns (next: Option<nat>)
    requires pBuffer <= pBufEnd <= mem.Length
    modifies mem
    ensures Wrote(old(mem[..]), mem[..], pBuffer, pBufEnd, EncodeValue(v, pBufEnd - pBuffer), next)
    decreases v, 1
  {
    hide EncodeObject;
    match v
    case Number(d) =>
      next := EncodeNumberAt(mem, pBuffer, pBufEnd, d);
    case Boolean(b) =>
      next := EncodeBooleanAt(mem, pBuffer, pBufEnd, b);
    case String(s) =>
      next := EncodeStringAt(mem, pBuffer, pBufEnd, s);
    case Object(props) =>
      next := EncodeObjectAt(mem, pBuffer, pBufEnd, props);
    case Null =>
      if pBuffer + 1 >= pBufEnd {
        return None;
      }
      var at := EncodeKindAt(mem, pBuffer, pBufEnd, NULL);
      next := Some(at);
    case _ =>
      next := None;
  }

  method EncodePropertyAt(mem: array<Byte>, pBuffer: nat, pBufEnd: nat, prop: Property) returns (next: Option<nat>)
    requires pBuffer <= pBufEnd <= mem.Length
    modifies mem
    ensures Wrote(old(mem[..]), mem[..], pBuffer, pBufEnd, EncodeProperty(prop, pBufEnd - pBuffer), next)
    decreases prop, 2
  {
    hide Wrote, NameField, EncodeValue;
    ghost var was := mem[..];
    if prop.value.Invalid? {
      NothingWrote(was, pBuffer, pBufEnd);
      return None;
    }
    if !prop.value.Null? && pBuffer + |prop.name| + 2 + 1 >= pBufEnd {
      NothingWrote(was, pBuffer, pBufEnd);
      return None;
    }
    if prop.value.Null? {
      next := EncodeValueAt(mem, pBuffer, pBufEnd, prop.value);
    } else {
      var at := EncodeNameAt(mem, pBuffer, pBufEnd, prop.name);
      NameRoom(prop.name);
      ghost var mid := mem[..];
      next := EncodeValueAt(mem, at, pBufEnd, prop.value);
      WroteOn(was, mid, mem[..], pBuffer, pBufEnd, NameField(prop.name), EncodeValue(prop.value, pBufEnd - at), next);
    }
  }

  lemma NameRoom(name: AVal)
    ensures |NameField(name)| <= |name| + 2
  {
  }

  lemma NothingWrote(was: seq<Byte>, pos: nat, end: nat)
    requires pos <= end <= |was|
    ensures Wrote(was, was, pos, end, None, None)
    ensures Wrote(was, was, pos, end, Some([]), Some(pos))
  {
  }

  /** The loop over the properties, which stops at the first that does not fit. */
  method EncodePropsAt(mem: array<Byte>, pBuffer: nat, pBufEnd: nat, props: seq<Property>) returns (next: nat)
    requires pBuffer <= pBufEnd <= mem.Length
    modifies mem
    ensures next == pBuffer + |EncodeProps(props, pBufEnd - pBuffer)|
    ensures Wrote(old(mem[..]), mem[..], pBuffer, pBufEnd, Some(EncodeProps(props, pBufEnd - pBuffer)), Some(next))
    decreases props, 0
  {
    hide Wrote, EncodeProperty;
    ghost var was := mem[..];
    ghost var all := EncodeProps(props, pBufEnd - pBuffer);
    ghost var done: seq<Byte> := [];
    next := pBuffer;
    NothingWrote(was, pBuffer, pBufEnd);
    assert props[0..] == props && [] + all == all;
    var i := 0;
    while i < |props|
      invariant 0 <= i <= |props|
      invariant next == pBuffer + |done| <= pBufEnd
      invariant Wrote(was, mem[..], pBuffer, pBufEnd, Some(done), Some(next))
      invariant done + EncodeProps(props[i..], pBufEnd - next) == all
    {
      ghost var mid := mem[..];
      ghost var e := EncodeProperty(props[i], pBufEnd - next);
      var res := EncodePropertyAt(mem, next, pBufEnd, props[i]);
      WroteOn(was, mid, mem[..], pBuffer, pBufEnd, done, e, res);
      WroteNext(mid, mem[..], next, pBufEnd, e, res);
      assert props[i..][0] == props[i] && props[i..][1..] == props[i + 1..];
      if res == None {
        assert done + [] == done;
        break;
      }
      ConcatAssoc(done, e.value, EncodeProps(props[i + 1..], pBufEnd - next - |e.value|));
      done := done + e.value;
      next := res.value;
      i := i + 1;
    }
    if i == |props| {
      assert done + [] == done;
    }
  }

  lemma WroteNext(was: seq<Byte>, now: seq<Byte>, pos: nat, end: nat, e: Option<seq<Byte>>, next: Option<nat>)
    requires Wrote(was, now, pos, end, e, next)
    ensures next == if e.None? then None else Some(pos + |e.value|)
    ensures pos <= end <= |was| == |now|
    ensures e.Some? ==> pos + |e.value| <= end
  {
  }

  method EncodeObjectAt(mem: array<Byte>, pBuffer: nat, pBufEnd: nat, props: seq<Property>) returns (next: Option<nat>)
    requires pBuffer <= pBufEnd <= mem.Length
    modifies mem
    ensures Wrote(old(mem[..]), mem[..], pBuffer, pBufEnd, EncodeObject(props, pBufEnd - pBuffer), next)
    decreases props, 1
  {
    hide Wrote, EncodeProps, Splice;
    ghost var was := mem[..];
    if pBuffer + 4 >= pBufEnd {
      NothingWrote(was, pBuffer, pBufEnd);
      return None;
    }
    var at := EncodeKindAt(mem, pBuffer, pBufEnd, OBJECT);
    ghost var mid := mem[..];
    ghost var body := EncodeProps(props, pBufEnd - pBuffer - 1);
    at := EncodePropsAt(mem, at, pBufEnd, props);
    WroteOn(was, mid, mem[..], pBuffer, pBufEnd, [OBJECT], Some(body), Some(at));
    if at + 3 >= pBufEnd {
      WroteFails(was, mem[..], pBuffer, pBufEnd, [OBJECT] + body);
      return None;
    }
    mid := mem[..];
    assert Be24(OBJECT_END as int) == END_MARK;
    next := EncodeInt24(mem, at, pBufEnd, OBJECT_END as int);
    SpliceWrote(mid, at, pBufEnd, END_MARK);
    WroteOn(was, mid, mem[..], pBuffer, pBufEnd, [OBJECT] + body, Some(END_MARK), next);
  }

  // ----- decoding -----

  lemma LaterLater(a: seq<Property>, n: nat, b: seq<Property>, m: nat, r: Decoded<seq<Property>>)
    ensures Later(a, n, Later(b, m, r)) == Later(a + b, n + m, r)
  {
    if r.Done? {
      ConcatAssoc(a, b, r.value);
    }
  }

  lemma LaterNothing(r: Decoded<seq<Property>>)
    ensures Later([], 0, r) == r
  {
    if r.Done? {
      assert [] + r.value == r.value;
    }
  }

  /** The result of the whole decode when the properties obj were read before position pos. */
  function Pending(long: Width, data: seq<Byte>, named: bool, failed: bool, obj: seq<Property>, pos: nat)
    : Decoded<seq<Property>>
    requires pos <= |data| < 0x8000_0000
  {
    Later(obj, pos, DecodeObject(long, data[pos..], named, failed))
  }

  /** How a turn of the loop that ends it, drops a byte or takes a property changes it. */
  lemma TurnEnds(long: Width, data: seq<Byte>, named: bool, failed: bool, obj: seq<Property>, pos: nat)
    requires pos <= |data| < 0x8000_0000
    ensures EndsHere(data[pos..]) ==> Pending(long, data, named, failed, obj, pos) == Done(obj, pos + 3)
    ensures pos == |data| ==>
              Pending(long, data, named, failed, obj, pos) == if failed then Failed else Done(obj, pos)
  {
    hide DecodeObject;
    assert obj + [] == obj;
    if EndsHere(data[pos..]) {
      StopsAtMark(long, data[pos..], named, failed);
    }
    if pos == |data| {
      NothingLeft(long, named, failed);
      assert data[pos..] == [];
    }
  }

  lemma TurnDrops(long: Width, data: seq<Byte>, named: bool, obj: seq<Property>, pos: nat)
    requires pos < |data| < 0x8000_0000 && !EndsHere(data[pos..])
    ensures Pending(long, data, named, true, obj, pos) == Pending(long, data, named, true, obj, pos + 1)
  {
    hide DecodeObject;
    DropsByte(long, data[pos..], named);
    assert data[pos..][1..] == data[pos + 1..];
    LaterLater(obj, pos, [], 1, DecodeObject(long, data[pos + 1..], named, true));
    assert obj + [] == obj;
  }

  lemma TurnTakes(long: Width, data: seq<Byte>, named: bool, obj: seq<Property>, pos: nat)
    requires pos < |data| < 0x8000_0000 && !EndsHere(data[pos..])
    ensures var now, p := Pending(long, data, named, false, obj, pos), DecodeProperty(long, data[pos..], named);
            match p
            case Done(prop, n) => now == Pending(long, data, named, false, obj + [prop], pos + n)
            case Failed => now == Pending(long, data, named, true, obj, pos)
            case Unmodelled => now == Unmodelled
            case Astray => now == Astray
  {
    hide DecodeObject, DecodeProperty, EndsHere;
    var rest := data[pos..];
    match DecodeProperty(long, rest, named)
    case Done(prop, n) =>
      TakesProperty(long, rest, named);
      assert rest[n..] == data[pos + n..];
      LaterLater(obj, pos, [prop], n, DecodeObject(long, data[pos + n..], named, false));
    case Failed =>
      FailsOver(long, rest, named);
    case _ =>
      StopsDead(long, rest, named);
  }

  lemma StopsDead(long: Width, data: seq<Byte>, named: bool)
    requires 0 < |data| < 0x8000_0000 && !EndsHere(data)
    ensures var p := DecodeProperty(long, data, named);
            && (p.Unmodelled? ==> DecodeObject(long, data, named, false) == Unmodelled)
            && (p.Astray? ==> DecodeObject(long, data, named, false) == Astray)
  {
    hide DecodeProperty;
  }

  method DecodeObjectAt(long: Width, data: seq<Byte>, named: bool) returns (r: Decoded<seq<Property>>)
    requires |data| < 0x8000_0000
    ensures r == DecodeObject(long, data, named, false)
    decreases |data|, 2
  {
    hide DecodeProperty, DecodeObject, Later;
    var obj: seq<Property> := [];
    var pBuffer, nSize := 0, |data|;
    var bError := false;
    LaterNothing(DecodeObject(long, data, named, false));
    assert data[0..] == data;
    assert Pending(long, data, named, false, [], 0) == DecodeObject(long, data, named, false);
    hide Pending;
    while nSize > 0
      invariant 0 <= pBuffer && 0 <= nSize && pBuffer + nSize == |data|
      invariant Pending(long, data, named, bError, obj, pBuffer) == DecodeObject(long, data, named, false)
      decreases nSize, if bError then 0 else 2
    {
      assert EndsHere(data[pBuffer..]) <==> nSize >= 3 && FromBe24(data, pBuffer) == OBJECT_END;
      TurnEnds(long, data, named, bError, obj, pBuffer);
      if nSize >= 3 && FromBe24(data, pBuffer) == OBJECT_END {
        return Done(obj, pBuffer + 3);
      }
      if bError {
        TurnDrops(long, data, named, obj, pBuffer);
        nSize, pBuffer := nSize - 1, pBuffer + 1;
      } else {
        TurnTakes(long, data, named, obj, pBuffer);
        var res := DecodePropertyAt(long, data[pBuffer..], named);
        match res
        case Failed =>
          bError := true;
        case Done(prop, n) =>
          obj := obj + [prop];
          nSize, pBuffer := nSize - n, pBuffer + n;
        case Unmodelled =>
          return Unmodelled;
        case Astray =>
          return Astray;
      }
    }
    TurnEnds(long, data, named, bError, obj, pBuffer);
    return if bError then Failed else Done(obj, pBuffer);
  }

  method DecodePropertyAt(long: Width, data: seq<Byte>, named: bool) returns (r: Decoded<Property>)
    requires |data| < 0x8000_0000
    ensures r == DecodeProperty(long, data, named)
    decreases |data|, 1
  {
    hide DecodeObject;
    var pBuffer, nSize := 0, |data|;
    if nSize == 0 || (named && nSize < 4) {
      return Failed;
    }
    var name: AVal := [];
    if named {
      var nNameSize := FromBe16(data, 0);
      if nNameSize > nSize - 2 {
        return Failed;
      }
      name := data[2..2 + nNameSize];
      pBuffer, nSize := 2 + nNameSize, nSize - (2 + nNameSize);
    }
    if nSize == 0 {
      return Failed;
    }
    var kind := data[pBuffer];
    pBuffer, nSize := pBuffer + 1, nSize - 1;
    var res := DecodeValueAt(long, kind, data[pBuffer..]);
    match res
    case Done(value, n) => return Done(Property(name, value), |data| - (nSize - n));
    case Failed => return Failed;
    case Unmodelled => return Unmodelled;
    case Astray => return Astray;
  }

  /** The switch on the type byte. */
  method DecodeValueAt(long: Width, kind: Byte, data: seq<Byte>) returns (r: Decoded<Value>)
    requires |data| < 0x8000_0000
    ensures r == DecodeBody(long, kind, data)
    decreases |data|, 3
  {
    hide DecodeObject;
    var nSize: int := |data|;
    var value := Null;
    if kind == NUMBER {
      if nSize < 8 {
        return Failed;
      }
      value := Number(data[..8]);
      nSize := nSize - 8;
    } else if kind == BOOLEAN {
      if nSize < 1 {
        return Failed;
      }
      value := Boolean(data[0] != 0);
      nSize := nSize - 1;
    } else if kind == STRING {
      if nSize < 2 || nSize < FromBe16(data, 0) + 2 {
        return Failed;
      }
      value := String(data[2..2 + FromBe16(data, 0)]);
      nSize := nSize - (2 + FromBe16(data, 0));
    } else if kind == OBJECT {
      var res := DecodeObjectAt(long, data, true);
      match res {
        case Done(props, nRes) =>
          value := Object(props);
          nSize := nSize - nRes;
        case Failed => return Failed;
        case Unmodelled => return Unmodelled;
        case Astray => return Astray;
      }
    } else if kind == DATE {
      if nSize < 10 {
        return Failed;
      }
      value := Date(data[..8], FromBe16(data, 8));
      nSize := nSize - 10;
    } else if kind == LONG_STRING {
      if nSize < 4 {
        return if long.Bits64? then Failed else Astray;
      }
      var nStringSize := FromBe32(data, 0);
      if !Accepts(long, nSize, nStringSize) {
        return Failed;
      }
      if 4 + nStringSize > |data| {
        return Astray;
      }
      value := String(data[4..4 + nStringSize]);
      nSize := BytesLeft(nSize, nStringSize);
    } else if kind == ECMA_ARRAY || kind == STRICT_ARRAY || kind == AVMPLUS {
      return Unmodelled;
    } else if kind != NULL && kind != UNDEFINED && kind != UNSUPPORTED {
      return Failed;
    }
    return Done(value, |data| - nSize);
  }
}
