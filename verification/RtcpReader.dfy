/** The receiving side: RTCPCompoundPacket::ParseData as the loop it is, and RTCPSDESPacket with its
    validating constructor and its chunk and item cursor. */
module RtcpReader {
  import opened Bytes
  import opened RtcpFormat

  class RTCPCompoundPacket {
    var rtcppacklist: seq<Entry>
    var error: bool

    constructor (data: seq<Byte>)
      ensures error == Parse(data).None?
      ensures rtcppacklist == if error then [] else Parse(data).value
    {
      error, rtcppacklist := false, [];
      new;
      ParseData(data);
    }

    method ParseData(data: seq<Byte>)
      modifies this
      ensures error == Parse(data).None?
      ensures rtcppacklist == if error then [] else Parse(data).value
    {
      hide ClaimedLength, Version, Padding;
      error, rtcppacklist := true, [];
      if |data| < COMMON_HEADER {
        return;
      }
      var first, at, more := true, 0, true;
      JoinNothing(ParseFrom(data, 0, true));
      while more
        invariant error && at <= |data| && (more ==> at + COMMON_HEADER <= |data|)
        invariant more ==> Parse(data) == Joined(rtcppacklist, ParseFrom(data, at, first))
        invariant !more ==> Parse(data) == if at == |data| then Some(rtcppacklist) else None
        decreases |data| - at, more
      {
        var d := data[at..];
        var length := ClaimedLength(d);
        if Version(d) != 2 || (first && d[1] != SR && d[1] != RR) || length > |d| || (Padding(d) && length != |d|) {
          rtcppacklist := [];
          return;
        }
        ghost var tail := if |d| - length >= COMMON_HEADER then ParseFrom(data, at + length, false) else None;
        JoinStep(rtcppacklist, Entry(d[1], at, length), tail);
        first := false;
        rtcppacklist := rtcppacklist + [Entry(d[1], at, length)];
        at := at + length;
        more := |data| - at >= COMMON_HEADER;
      }
      if at != |data| {
        rtcppacklist := [];
        return;
      }
      error := false;
    }
  }

  /** The packets found so far followed by those still to be found. */
  function Joined(list: seq<Entry>, rest: Option<seq<Entry>>): Option<seq<Entry>> {
    if rest.None? then None else Some(list + rest.value)
  }

  lemma JoinNothing(rest: Option<seq<Entry>>)
    ensures Joined([], rest) == rest
  {
    if rest.Some? {
      assert [] + rest.value == rest.value;
    }
  }

  lemma JoinStep(list: seq<Entry>, e: Entry, tail: Option<seq<Entry>>)
    ensures tail.Some? ==> Joined(list, Some([e] + tail.value)) == Joined(list + [e], tail)
    ensures Joined(list, Some([e])) == Some(list + [e])
  {
    if tail.Some? {
      assert list + ([e] + tail.value) == list + [e] + tail.value;
    }
  }

  // ---------- facts about the walk ----------

  /** Each chunk's items were walked from behind its SSRC; chunks follow one another and the last ends at len. */
  lemma {:induction false} ChunkInWalk(d: seq<Byte>, len: nat, pos: nat, count: nat, i: nat)
    requires pos <= len <= |d| && WalkChunks(d, len, pos, count).Some? && i < count
    ensures var w := WalkChunks(d, len, pos, count).value;
            && pos <= w[i].at && w[i].at + 8 <= len
            && WalkItems(d, len, w[i].at, w[i].at + 4) == Some((w[i].items, w[i].next))
            && (if i + 1 < count then w[i].next == w[i + 1].at else w[i].next == len)
            && w[0].at == pos
    decreases count
  {
    hide WalkItems;
    if i > 0 {
      ChunkInWalk(d, len, WalkItems(d, len, pos, pos + 4).value.1, count - 1, i - 1);
      if count > 2 || i == 1 {
        var next := WalkItems(d, len, pos, pos + 4).value.1;
        assert WalkChunks(d, len, pos, count).value[1..] == WalkChunks(d, len, next, count - 1).value;
      }
    } else if count > 1 {
      ChunkInWalk(d, len, WalkItems(d, len, pos, pos + 4).value.1, count - 1, 0);
    }
  }

  /** At the start of a walked item list: either the end marker, or the first item, inside the range. */
  lemma ItemHere(d: seq<Byte>, len: nat, start: nat, pos: nat)
    requires start <= pos <= len <= |d| && WalkItems(d, len, start, pos).Some?
    ensures pos < len
    ensures var (items, next) := WalkItems(d, len, start, pos).value;
            if d[pos] == 0 then items == [] && next == Aligned(start, pos + 1)
            else
              && pos + 1 < len
              && items != [] && items[0] == Item(pos, d[pos], d[pos + 1])
              && pos + SDES_HEADER + d[pos + 1] < len
              && WalkItems(d, len, start, pos + SDES_HEADER + d[pos + 1]) == Some((items[1..], next))
  {
  }

  /** The validating constructor's loops. */
  method Validate(data: seq<Byte>) returns (known: bool)
    requires |data| >= COMMON_HEADER
    ensures known == SdesWalk(data).Some?
  {
    hide WalkItems, Aligned;
    var unpadded := Unpadded(data);
    if unpadded.None? {
      return false;
    }
    var len: nat := unpadded.value;
    var total := len;
    if len < COMMON_HEADER {
      return false;
    }
    len := len - COMMON_HEADER;
    var chunk: nat, ssrccount: nat := COMMON_HEADER, Count(data);
    while ssrccount > 0 && len > 0
      invariant chunk + len == total && ssrccount >= 0
      invariant SdesWalk(data).Some? == WalkChunks(data, total, chunk, ssrccount).Some?
    {
      if len < 8 {
        return false;
      }
      var chunkoffset := ValidateItems(data, total, chunk);
      if chunkoffset.None? {
        return false;
      }
      len := len - chunkoffset.value;
      chunk := chunk + chunkoffset.value;
      ssrccount := ssrccount - 1;
    }
    return len == 0 && ssrccount == 0;
  }

  /** One chunk: the offset of the next one, or None where the constructor gives up. */
  method ValidateItems(data: seq<Byte>, total: nat, chunk: nat) returns (next: Option<nat>)
    requires chunk + 8 <= total <= |data|
    ensures var items := WalkItems(data, total, chunk, chunk + 4);
            if items.None? then next == None else next == Some(items.value.1 - chunk)
  {
    hide Aligned;
    var len, chunkoffset := total - chunk - 4, 4;
    while true
      invariant chunk + chunkoffset + len == total && 4 <= chunkoffset && 0 <= len
      invariant var items := WalkItems(data, total, chunk, chunk + 4);
                var rest := WalkItems(data, total, chunk, chunk + chunkoffset);
                items.Some? == rest.Some? && (items.Some? ==> items.value.1 == rest.value.1)
      decreases len
    {
      if len < 1 {
        return None;
      }
      var at := chunk + chunkoffset;
      if data[at] == 0 {
        len := len - 1;
        chunkoffset := chunkoffset + 1;
        var r := chunkoffset % 4;
        AlignOffset(chunk, chunkoffset);
        if r != 0 {
          var addoffset := 4 - r;
          if addoffset > len {
            return None;
          }
          chunkoffset := chunkoffset + addoffset;
        }
        return Some(chunkoffset);
      } else {
        if len < SDES_HEADER {
          return None;
        }
        var itemlen := data[at + 1];
        if itemlen > len - SDES_HEADER {
          return None;
        }
        len := len - SDES_HEADER - itemlen;
        chunkoffset := chunkoffset + SDES_HEADER + itemlen;
      }
    }
  }

  lemma AlignOffset(chunk: nat, offset: nat)
    ensures Aligned(chunk, chunk + offset) == chunk + (if offset % 4 == 0 then offset else offset + (4 - offset % 4))
  {
  }

  datatype ItemType = NoItem | CNAME | NAME | EMAIL | PHONE | LOC | TOOL | NOTE | PRIV | Unknown

  function TypeOf(id: Byte): ItemType {
    match id
    case 0 => NoItem
    case 1 => CNAME
    case 2 => NAME
    case 3 => EMAIL
    case 4 => PHONE
    case 5 => LOC
    case 6 => TOOL
    case 7 => NOTE
    case 8 => PRIV
    case _ => Unknown
  }

  /** The numbers of section 6.5 of RFC 3550, with 0 for the end of a chunk. */
  lemma TypeNumbers(id: Byte)
    ensures id <= 8 ==> TypeOf(id) == [NoItem, CNAME, NAME, EMAIL, PHONE, LOC, TOOL, NOTE, PRIV][id]
    ensures TypeOf(id) == Unknown <==> id > 8
  {
  }

  /** The cursor. currentchunk is None for the null pointer; offsets count from the start of data. */
  class RTCPSDESPacket {
    const data: seq<Byte>
    var knownformat: bool
    var currentchunk: Option<nat>
    var curchunknum: nat
    var itemoffset: nat
    ghost var itemIndex: nat

    /** The chunks of a packet of known format. */
    ghost function Walk(): (w: seq<Chunk>)
      requires |data| >= COMMON_HEADER && SdesWalk(data).Some?
    {
      SdesWalk(data).value
    }

    /** Length without padding. */
    ghost function Len(): (n: nat)
      requires |data| >= COMMON_HEADER && SdesWalk(data).Some?
      ensures COMMON_HEADER <= n <= |data| && WalkChunks(data, n, COMMON_HEADER, Count(data)) == SdesWalk(data)
    {
      Unpadded(data).value
    }

    /** The chunk the cursor is on, if it is on one. */
    ghost function Current(): Chunk
      reads this
      requires Valid() && currentchunk.Some?
    {
      Walk()[curchunknum - 1]
    }

    /** The format flag is the validator's verdict, and the cursor stands on a walked chunk and item. */
    ghost predicate Valid()
      reads this
    {
      && |data| >= COMMON_HEADER && knownformat == SdesWalk(data).Some?
      && (currentchunk.Some? ==>
            && knownformat && 1 <= curchunknum <= |Walk()|
            && currentchunk.value == Walk()[curchunknum - 1].at
            && OnItem(Walk()[curchunknum - 1]))
    }

    /** The item offset points at item itemIndex, or at the end marker of a chunk without items. */
    ghost predicate OnItem(c: Chunk)
      reads this
    {
      && c.at + 8 <= |data|
      && (c.items == [] ==> itemoffset == 4 && itemIndex == 0)
      && (c.items != [] ==>
            && itemIndex < |c.items| && c.at + itemoffset == c.items[itemIndex].at
            && c.items[itemIndex].at + SDES_HEADER + c.items[itemIndex].length < |data|)
    }

    constructor (d: seq<Byte>)
      requires |d| >= COMMON_HEADER
      ensures Valid() && data == d && currentchunk == None && knownformat == SdesWalk(d).Some?
    {
      data := d;
      currentchunk, curchunknum, itemoffset, itemIndex := None, 0, 0, 0;
      knownformat := false;
      new;
      knownformat := Validate(d);
    }

    function GetChunkCount(): (n: nat)
      reads this
      requires Valid()
      ensures n == if knownformat then |Walk()| else 0
    {
      if !knownformat then 0 else Count(data)
    }

    method GotoFirstChunk() returns (r: bool)
      requires Valid()
      modifies this`currentchunk, this`curchunknum, this`itemoffset, this`itemIndex
      ensures Valid() && r == (knownformat && |Walk()| > 0) && r == currentchunk.Some?
      ensures r ==> curchunknum == 1 && itemIndex == 0
    {
      hide WalkItems, WalkChunks;
      if GetChunkCount() == 0 {
        currentchunk := None;
        return false;
      }
      ChunkInWalk(data, Len(), COMMON_HEADER, Count(data), 0);
      ItemHereIn(Walk()[0]);
      currentchunk := Some(COMMON_HEADER);
      curchunknum, itemoffset, itemIndex := 1, 4, 0;
      return true;
    }

    /** The first item of a walked chunk lies right behind its SSRC. */
    lemma ItemHereIn(c: Chunk)
      requires Valid() && knownformat && c in Walk()
      ensures c.at + 8 <= Len() && WalkItems(data, Len(), c.at, c.at + 4) == Some((c.items, c.next))
      ensures c.items != [] ==> c.items[0].at == c.at + 4 && c.at + 4 + SDES_HEADER + c.items[0].length < Len()
      ensures c.items == [] <==> data[c.at + 4] == 0
      ensures c.items == [] ==> c.next == Aligned(c.at, c.at + 5)
    {
      hide WalkItems, WalkChunks;
      var i :| 0 <= i < |Walk()| && Walk()[i] == c;
      ChunkInWalk(data, Len(), COMMON_HEADER, Count(data), i);
      ItemHere(data, Len(), c.at, c.at + 4);
    }

    /** Everything an item header promises, for item k of a walked chunk. */
    lemma ItemInWalk(c: Chunk, k: nat)
      requires Valid() && knownformat && c in Walk() && k < |c.items|
      ensures var it := c.items[k];
              && c.at + 4 <= it.at && it.at + SDES_HEADER + it.length < Len()
              && data[it.at] == it.id != 0 && data[it.at + 1] == it.length
              && var after := it.at + SDES_HEADER + it.length;
              && WalkItems(data, Len(), c.at, after) == Some((c.items[k + 1..], c.next))
              && (k + 1 < |c.items| ==> c.items[k + 1].at == after && data[after] != 0)
              && (k + 1 == |c.items| ==> data[after] == 0 && c.next == Aligned(c.at, after + 1))
      decreases k
    {
      hide WalkItems, WalkChunks, Aligned;
      ItemHereIn(c);
      if k == 0 {
        ItemHere(data, Len(), c.at, c.at + 4);
      } else {
        ItemInWalk(c, k - 1);
        var before := c.items[k - 1];
        ItemHere(data, Len(), c.at, before.at + SDES_HEADER + before.length);
      }
      var after := c.items[k].at + SDES_HEADER + c.items[k].length;
      ItemHere(data, Len(), c.at, after);
    }

    method GotoNextChunk() returns (r: bool)
      requires Valid()
      modifies this`currentchunk, this`curchunknum, this`itemoffset, this`itemIndex
      ensures Valid() && r == (old(currentchunk).Some? && old(curchunknum) < |Walk()|)
      ensures r ==> currentchunk.Some? && curchunknum == old(curchunknum) + 1 && itemIndex == 0
      ensures !r ==> currentchunk == old(currentchunk) && curchunknum == old(curchunknum) && itemIndex == old(itemIndex)
    {
      hide WalkItems, WalkChunks, Aligned;
      if !knownformat || currentchunk.None? || curchunknum == GetChunkCount() {
        return false;
      }
      ghost var c := Current();
      var chunk: nat, offset: nat := currentchunk.value, 4;
      ghost var k: nat := 0;
      ItemHereIn(c);
      while data[chunk + offset] != 0
        invariant Valid() && currentchunk == old(currentchunk) && currentchunk.Some? && c == Current() && c.at == chunk
        invariant curchunknum == old(curchunknum) < |Walk()|
        invariant 0 <= k <= |c.items| && 4 <= offset && c.at + offset < Len()
        invariant k < |c.items| ==> c.items[k].at == c.at + offset && data[c.at + offset] != 0
        invariant k == |c.items| ==> data[c.at + offset] == 0 && c.next == Aligned(c.at, c.at + offset + 1)
        decreases |c.items| - k
      {
        ItemInWalk(c, k);
        offset := offset + SDES_HEADER + data[chunk + offset + 1];
        k := k + 1;
      }
      offset := offset + 1;
      AlignOffset(c.at, offset);
      if offset % 4 != 0 {
        offset := offset + (4 - offset % 4);
      }
      ChunkInWalk(data, Len(), COMMON_HEADER, Count(data), curchunknum - 1);
      ItemHereIn(Walk()[curchunknum]);
      currentchunk := Some(currentchunk.value + offset);
      curchunknum := curchunknum + 1;
      itemoffset, itemIndex := 4, 0;
      return true;
    }

    method GotoFirstItem() returns (r: bool)
      requires Valid()
      modifies this`itemoffset, this`itemIndex
      ensures Valid()
      ensures r == (currentchunk.Some? && Current().items != [])
      ensures currentchunk.Some? ==> itemIndex == 0
    {
      if !knownformat || currentchunk.None? {
        return false;
      }
      ItemHereIn(Current());
      itemoffset, itemIndex := 4, 0;
      return data[currentchunk.value + itemoffset] != 0;
    }

    method GotoNextItem() returns (r: bool)
      requires Valid()
      modifies this`itemoffset, this`itemIndex
      ensures Valid()
      ensures r == (currentchunk.Some? && old(itemIndex) + 1 < |Current().items|)
      ensures itemIndex == if r then old(itemIndex) + 1 else old(itemIndex)
    {
      hide WalkItems, WalkChunks, Aligned;
      if !knownformat || currentchunk.None? {
        return false;
      }
      ghost var c := Current();
      ItemHereIn(c);
      if data[currentchunk.value + itemoffset] == 0 {
        if c.items != [] {
          ItemInWalk(c, itemIndex);
        }
        return false;
      }
      ItemInWalk(c, itemIndex);
      var offset := itemoffset + SDES_HEADER + data[currentchunk.value + itemoffset + 1];
      if data[currentchunk.value + offset] == 0 {
        return false;
      }
      ItemInWalk(c, itemIndex + 1);
      itemoffset, itemIndex := offset, itemIndex + 1;
      return true;
    }

    /** The item the cursor is on, as walked. */
    ghost function CurrentItem(): Item
      reads this
      requires Valid() && currentchunk.Some? && Current().items != []
    {
      Current().items[itemIndex]
    }

    method GetChunkSSRC() returns (ssrc: U32)
      requires Valid()
      ensures ssrc == if currentchunk.None? then 0 else FromBe32(data, Current().at)
    {
      if !knownformat || currentchunk.None? {
        return 0;
      }
      ItemHereIn(Current());
      return FromBe32(data, currentchunk.value);
    }

    method GetItemType() returns (t: ItemType)
      requires Valid()
      ensures t == if currentchunk.None? || Current().items == [] then NoItem else TypeOf(CurrentItem().id)
    {
      if !knownformat || currentchunk.None? {
        return NoItem;
      }
      ItemHereIn(Current());
      if Current().items != [] {
        ItemInWalk(Current(), itemIndex);
      }
      return TypeOf(data[currentchunk.value + itemoffset]);
    }

    /** Position and length of the item's value, which lie inside the unpadded packet; (0, 0) without item. */
    method GetItemData() returns (at: nat, length: nat)
      requires Valid()
      ensures if currentchunk.None? || Current().items == [] then at == 0 && length == 0
              else at == CurrentItem().at + SDES_HEADER && length == CurrentItem().length && at + length < Len()
    {
      if !knownformat || currentchunk.None? {
        return 0, 0;
      }
      ItemHereIn(Current());
      if Current().items != [] {
        ItemInWalk(Current(), itemIndex);
      }
      if data[currentchunk.value + itemoffset] == 0 {
        return 0, 0;
      }
      return currentchunk.value + itemoffset + SDES_HEADER, data[currentchunk.value + itemoffset + 1];
    }

    /** Prefix and value of a PRIV item. They split its value, behind the prefix length, when that fits;
        otherwise, and for other items, both are empty. */
    method GetPRIV() returns (prefixAt: nat, prefixLength: nat, valueAt: nat, valueLength: nat)
      requires Valid()
      ensures if currentchunk.Some? && Current().items != [] && CurrentItem().id == 8 && CurrentItem().length > 0
                 && data[CurrentItem().at + SDES_HEADER] <= CurrentItem().length - 1
              then
                var it := CurrentItem();
                && prefixLength == data[it.at + SDES_HEADER] && prefixLength + valueLength + 1 == it.length
                && prefixAt == it.at + SDES_HEADER + 1 && valueAt == prefixAt + prefixLength
                && valueAt + valueLength < Len()
              else prefixLength == 0 && valueLength == 0
    {
      prefixAt, prefixLength, valueAt, valueLength := 0, 0, 0, 0;
      if !knownformat || currentchunk.None? {
        return;
      }
      ItemHereIn(Current());
      if Current().items != [] {
        ItemInWalk(Current(), itemIndex);
      }
      var at := currentchunk.value + itemoffset;
      if data[at] != 8 || data[at + 1] == 0 {
        return;
      }
      var stored := data[at + SDES_HEADER];
      if stored > data[at + 1] - 1 {
        return;
      }
      prefixAt, prefixLength := at + SDES_HEADER + 1, stored;
      valueAt, valueLength := prefixAt + prefixLength, data[at + 1] - prefixLength - 1;
    }

    /** The traversal of Dump: every chunk, and in it every item, through the cursor. */
    method Traverse() returns (visited: seq<(nat, seq<Item>)>)
      requires Valid()
      modifies this
      ensures Valid() && knownformat == old(knownformat)
      ensures visited == if knownformat then Visits(Walk()) else []
    {
      hide WalkItems, WalkChunks, SdesWalk;
      visited := [];
      var more := GotoFirstChunk();
      while more
        invariant Valid() && knownformat == old(knownformat)
        invariant more ==> currentchunk.Some? && itemIndex == 0 && |visited| == curchunknum - 1
        invariant knownformat ==> |visited| <= |Walk()| && visited == Visits(Walk()[..|visited|])
        invariant knownformat && !more ==> |visited| == |Walk()|
        invariant !knownformat ==> visited == [] && !more
        decreases if knownformat then |Walk()| - |visited| else 0, more
      {
        ghost var c := Current();
        var items := [];
        var another := GotoFirstItem();
        while another
          invariant Valid() && knownformat && currentchunk.Some? && Current() == c
          invariant curchunknum == |visited| + 1
          invariant |items| <= |c.items| && items == c.items[..|items|]
          invariant if another then itemIndex == |items| < |c.items| else |items| == |c.items|
          decreases |c.items| - |items|, another
        {
          ItemInWalk(c, itemIndex);
          var at := currentchunk.value + itemoffset;
          items := items + [Item(at, data[at], data[at + 1])];
          another := GotoNextItem();
        }
        assert c.items[..|c.items|] == c.items;
        VisitsSnoc(Walk(), |visited|);
        visited := visited + [(currentchunk.value, items)];
        more := GotoNextChunk();
      }
      if knownformat {
        assert Walk()[..|Walk()|] == Walk();
      }
    }
  }

  /** What a complete traversal should report. */
  function Visits(chunks: seq<Chunk>): (v: seq<(nat, seq<Item>)>)
    ensures |v| == |chunks|
  {
    if chunks == [] then []
    else Visits(chunks[..|chunks| - 1]) + [(chunks[|chunks| - 1].at, chunks[|chunks| - 1].items)]
  }

  lemma VisitsSnoc(chunks: seq<Chunk>, n: nat)
    requires n < |chunks|
    ensures Visits(chunks[..n + 1]) == Visits(chunks[..n]) + [(chunks[n].at, chunks[n].items)]
  {
    assert chunks[..n + 1][..n] == chunks[..n];
  }
}
