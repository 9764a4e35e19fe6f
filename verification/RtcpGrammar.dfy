/** The grammar of compound packets, as relations between bytes and what is found in them, and that the receiver's
    parser and checks accept exactly what it allows. */
module RtcpGrammar {
  import opened Bytes
  import opened RtcpFormat

  // ----- the compound packet -----

  /** The entries tile the data from a position to its end. Every packet is of version 2 and as long as its header
      says, only the last may be padded, and a first one is a report. */
  predicate EntriesAre(data: seq<Byte>, at: nat, first: bool, entries: seq<Entry>)
    decreases |entries|
  {
    && entries != [] && at + 4 <= |data|
    && var e := entries[0];
       && e == Entry(data[at + 1], at, 4 * (Read2(data, at + 2) + 1))
       && data[at] / 64 == 2 && (first ==> data[at + 1] == 200 || data[at + 1] == 201)
       && at + e.length <= |data|
       && (if |entries| == 1 then at + e.length == |data|
           else data[at] / 32 % 2 == 0 && EntriesAre(data, at + e.length, false, entries[1..]))
  }

  lemma HeaderAt(data: seq<Byte>, at: nat)
    requires at + 4 <= |data|
    ensures var d := data[at..];
            && Version(d) == data[at] / 64 && (Padding(d) <==> data[at] / 32 % 2 == 1)
            && d[1] == data[at + 1] && ClaimedLength(d) == 4 * (Read2(data, at + 2) + 1)
  {
  }

  lemma {:induction false} EntriesParse(data: seq<Byte>, at: nat, first: bool, entries: seq<Entry>)
    requires EntriesAre(data, at, first, entries)
    ensures at + 4 <= |data| && ParseFrom(data, at, first) == Some(entries)
    decreases |entries|
  {
    hide Version, Padding, ClaimedLength, Read2;
    HeaderAt(data, at);
    assert [entries[0]] + entries[1..] == entries;
    if |entries| > 1 {
      EntriesParse(data, at + entries[0].length, false, entries[1..]);
    } else {
      assert entries == [entries[0]];
    }
  }

  lemma {:induction false} ParsedEntriesAre(data: seq<Byte>, at: nat, first: bool)
    requires at + 4 <= |data| && ParseFrom(data, at, first).Some?
    ensures EntriesAre(data, at, first, ParseFrom(data, at, first).value)
    decreases |data| - at
  {
    hide Version, Padding, Read2;
    HeaderAt(data, at);
    var es := ParseFrom(data, at, first).value;
    var length := ClaimedLength(data[at..]);
    if |data| - at - length >= 4 {
      ParsedEntriesAre(data, at + length, false);
      assert es[1..] == ParseFrom(data, at + length, false).value;
    }
  }

  /** The parser finds a list of packets in the data if and only if the list tiles it. */
  lemma ParsesExactly(data: seq<Byte>, entries: seq<Entry>)
    ensures Parse(data) == Some(entries) <==> EntriesAre(data, 0, true, entries)
  {
    hide ParseFrom;
    if EntriesAre(data, 0, true, entries) {
      EntriesParse(data, 0, true, entries);
    }
    if Parse(data) == Some(entries) {
      ParsedEntriesAre(data, 0, true);
    }
  }

  // ----- the chunks of an SDES packet -----

  /** The items of the chunk at start, from a position on: each with a type other than zero, its length and its
      value, and after them a zero byte and the start of the next chunk, the first multiple of four behind it. */
  predicate ItemsAre(d: seq<Byte>, len: nat, start: nat, pos: nat, items: seq<Item>, next: nat)
    requires len <= |d|
    decreases |items|
  {
    && pos < len
    && if items == [] then
         d[pos] == 0 && pos < next <= len && next <= pos + 4 && (next - start) % 4 == 0
       else
         && pos + 2 <= len && d[pos] != 0 && items[0] == Item(pos, d[pos], d[pos + 1])
         && pos + 2 + d[pos + 1] <= len && ItemsAre(d, len, start, pos + 2 + d[pos + 1], items[1..], next)
  }

  /** The chunks from a position on, to the end. */
  predicate ChunksAre(d: seq<Byte>, len: nat, pos: nat, chunks: seq<Chunk>)
    requires len <= |d|
    decreases |chunks|
  {
    if chunks == [] then pos == len
    else
      && pos + 8 <= len && chunks[0].at == pos
      && ItemsAre(d, len, pos, pos + 4, chunks[0].items, chunks[0].next)
      && ChunksAre(d, len, chunks[0].next, chunks[1..])
  }

  lemma OneAligned(start: nat, pos: nat, next: nat)
    requires start <= pos
    ensures next == Aligned(start, pos) <==> pos <= next < pos + 4 && (next - start) % 4 == 0
  {
  }

  lemma {:induction false} WalkedItems(d: seq<Byte>, len: nat, start: nat, pos: nat, items: seq<Item>, next: nat)
    requires start <= pos <= len <= |d|
    ensures WalkItems(d, len, start, pos) == Some((items, next)) <==> ItemsAre(d, len, start, pos, items, next)
    decreases len - pos
  {
    hide Aligned;
    if pos < len && d[pos] == 0 {
      OneAligned(start, pos + 1, next);
    } else if pos + 2 <= len && pos + 2 + d[pos + 1] <= len {
      var rest := WalkItems(d, len, start, pos + 2 + d[pos + 1]);
      if items != [] {
        WalkedItems(d, len, start, pos + 2 + d[pos + 1], items[1..], next);
        assert [items[0]] + items[1..] == items;
        if rest.Some? {
          assert ([Item(pos, d[pos], d[pos + 1])] + rest.value.0)[1..] == rest.value.0;
        }
      }
    }
  }

  lemma {:induction false} ItemsMove(d: seq<Byte>, len: nat, start: nat, pos: nat, items: seq<Item>, next: nat)
    requires len <= |d| && ItemsAre(d, len, start, pos, items, next)
    ensures pos < next <= len
    decreases |items|
  {
    if items != [] {
      ItemsMove(d, len, start, pos + 2 + d[pos + 1], items[1..], next);
    }
  }

  lemma {:induction false} WalkedChunks(d: seq<Byte>, len: nat, pos: nat, chunks: seq<Chunk>)
    requires pos <= len <= |d|
    ensures WalkChunks(d, len, pos, |chunks|) == Some(chunks) <==> ChunksAre(d, len, pos, chunks)
    decreases |chunks|
  {
    hide WalkItems, ItemsAre;
    if chunks != [] && pos + 8 <= len {
      var c, walked := chunks[0], WalkItems(d, len, pos, pos + 4);
      WalkedItems(d, len, pos, pos + 4, c.items, c.next);
      if walked == Some((c.items, c.next)) {
        WalkedChunks(d, len, c.next, chunks[1..]);
        assert [c] + chunks[1..] == chunks;
        assert Chunk(pos, c.items, c.next) == c <==> c.at == pos;
        var rest := WalkChunks(d, len, c.next, |chunks| - 1);
        if rest.Some? {
          assert ([Chunk(pos, c.items, c.next)] + rest.value)[1..] == rest.value;
        }
      }
    }
  }

  // ----- the packets of each type -----

  /** Bytes behind the content of a padded packet; its last byte states them. */
  function PadBytes(d: seq<Byte>): nat
    requires |d| >= 4
  {
    if d[0] / 32 % 2 == 1 then d[|d| - 1] else 0
  }

  /** The padding is a multiple of four bytes and leaves some of the packet. */
  predicate WellPadded(d: seq<Byte>)
    requires |d| >= 4
  {
    PadBytes(d) % 4 == 0 && PadBytes(d) < |d|
  }

  /** The chunks fill the packet up to the padding, and there are as many as the header says. */
  predicate IsSdes(d: seq<Byte>, chunks: seq<Chunk>)
    requires |d| >= 4
  {
    WellPadded(d) && |chunks| == d[0] % 32 && ChunksAre(d, |d| - PadBytes(d), 4, chunks)
  }

  /** Sender reports carry 24 bytes and receiver reports 4 before their blocks of 24 bytes; a BYE packet has room
      for its sources, and a reason fits; an APP packet has eight bytes. */
  predicate IsOther(d: seq<Byte>)
    requires |d| >= 4
  {
    var len, n := |d| - PadBytes(d), d[0] % 32;
    && (d[1] == 200 ==> WellPadded(d) && len == 28 + 24 * n)
    && (d[1] == 201 ==> WellPadded(d) && len == 8 + 24 * n)
    && (d[1] == 203 ==>
          && WellPadded(d) && 4 + 4 * n <= len
          && (4 + 4 * n < len ==> 4 + 4 * n + 1 + d[4 + 4 * n] <= len))
    && (d[1] == 204 ==> WellPadded(d) && len >= 12)
  }

  lemma UnpaddedIs(d: seq<Byte>)
    requires |d| >= 4
    ensures Unpadded(d) == if WellPadded(d) then Some(|d| - PadBytes(d)) else None
    ensures Count(d) == d[0] % 32
  {
  }

  lemma {:induction false} ChunksBehind(d: seq<Byte>, len: nat, pos: nat, chunks: seq<Chunk>)
    requires len <= |d| && ChunksAre(d, len, pos, chunks)
    ensures pos <= len
  {
  }

  /** The walk over an SDES packet finds some chunks if and only if they make it up. */
  lemma SdesExactly(d: seq<Byte>, chunks: seq<Chunk>)
    requires |d| >= 4
    ensures SdesWalk(d) == Some(chunks) <==> IsSdes(d, chunks)
  {
    hide Unpadded, PadBytes, ChunksAre, WalkChunks, Count, WellPadded;
    UnpaddedIs(d);
    if WellPadded(d) {
      var len := |d| - PadBytes(d);
      if len >= 4 {
        WalkedChunks(d, len, 4, chunks);
      } else if ChunksAre(d, len, 4, chunks) {
        ChunksBehind(d, len, 4, chunks);
      }
    }
  }

  /** A packet passes the check of its class if and only if it is built as its type demands. */
  lemma KnownExactly(d: seq<Byte>)
    requires |d| >= 4
    ensures Known(d) <==> if d[1] == 202 then exists chunks :: IsSdes(d, chunks) else IsOther(d)
  {
    hide Unpadded, PadBytes, Count, WellPadded, SdesWalk, IsSdes;
    UnpaddedIs(d);
    if d[1] == 202 {
      if Known(d) {
        SdesExactly(d, SdesWalk(d).value);
      }
      if chunks :| IsSdes(d, chunks) {
        SdesExactly(d, chunks);
      }
    }
  }
}
