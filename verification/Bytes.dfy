/** Bytes, machine words and the byte-order codecs shared by the protocol modules.
    Words are mathematical integers restricted to the width the C code gives them. */
module Bytes {
  type Byte = n: int | 0 <= n < 0x100
  type U16 = n: int | 0 <= n < 0x1_0000
  type U24 = n: int | 0 <= n < 0x100_0000
  type U32 = n: int | 0 <= n < 0x1_0000_0000

  const TWO32: int := 0x1_0000_0000

  datatype Option<+T> = None | Some(value: T)

  function Min(a: int, b: int): int {
    if a < b then a else b
  }

  // ----- big endian -----

  function Be16(v: U16): (b: seq<Byte>)
    ensures |b| == 2
  {
    [v / 0x100, v % 0x100]
  }

  function Be24(v: U24): (b: seq<Byte>)
    ensures |b| == 3
  {
    [v / 0x1_0000, v % 0x1_0000 / 0x100, v % 0x1_0000 % 0x100]
  }

  function Be32(v: U32): (b: seq<Byte>)
    ensures |b| == 4
  {
    [v / 0x1_0000 / 0x100, v / 0x1_0000 % 0x100, v % 0x1_0000 / 0x100, v % 0x1_0000 % 0x100]
  }

  /** Words one after another. */
  function Be32All(ws: seq<U32>): (b: seq<Byte>)
    ensures |b| == 4 * |ws|
  {
    if ws == [] then [] else Be32(ws[0]) + Be32All(ws[1..])
  }

  function FromBe16(b: seq<Byte>, i: nat): U16
    requires i + 2 <= |b|
  {
    b[i] as int * 0x100 + b[i + 1] as int
  }

  function FromBe24(b: seq<Byte>, i: nat): U24
    requires i + 3 <= |b|
  {
    b[i] as int * 0x1_0000 + b[i + 1] as int * 0x100 + b[i + 2] as int
  }

  function FromBe32(b: seq<Byte>, i: nat): U32
    requires i + 4 <= |b|
  {
    b[i] as int * 0x100_0000 + b[i + 1] as int * 0x1_0000 + b[i + 2] as int * 0x100 + b[i + 3] as int
  }

  /** Shifting then masking and masking then shifting pick the same bytes. */
  lemma ByteDigits(v: U32)
    ensures v / 0x100 % 0x100 == v % 0x1_0000 / 0x100
    ensures v % 0x1_0000 % 0x100 == v % 0x100
    ensures v / 0x100_0000 == v / 0x1_0000 / 0x100
  {
    var hi, lo := v / 0x1_0000, v % 0x1_0000;
    assert v == hi * 0x1_0000 + lo;
    var h, l := lo / 0x100, lo % 0x100;
    assert lo == h * 0x100 + l;
    assert v == (hi * 0x100 + h) * 0x100 + l;
    assert v / 0x100 == hi * 0x100 + h;
    assert hi == hi / 0x100 * 0x100 + hi % 0x100;
  }

  // ----- little endian -----

  function Le32(v: U32): (b: seq<Byte>)
    ensures |b| == 4
  {
    [v % 0x1_0000 % 0x100, v % 0x1_0000 / 0x100, v / 0x1_0000 % 0x100, v / 0x1_0000 / 0x100]
  }

  function FromLe32(b: seq<Byte>, i: nat): U32
    requires i + 4 <= |b|
  {
    b[i] as int + b[i + 1] as int * 0x100 + b[i + 2] as int * 0x1_0000 + b[i + 3] as int * 0x100_0000
  }

  // ----- the digits themselves -----

  /** Big-endian words, read digit by digit. */
  function Read2(h: seq<Byte>, i: nat): nat
    requires i + 2 <= |h|
  {
    h[i] as int * 256 + h[i + 1] as int
  }

  function Read3(h: seq<Byte>, i: nat): nat
    requires i + 3 <= |h|
  {
    h[i] as int * 65536 + h[i + 1] as int * 256 + h[i + 2] as int
  }

  function Read4(h: seq<Byte>, i: nat): nat
    requires i + 4 <= |h|
  {
    h[i] as int * 16777216 + h[i + 1] as int * 65536 + h[i + 2] as int * 256 + h[i + 3] as int
  }

  /** A little-endian word likewise. */
  function Read4Le(h: seq<Byte>, i: nat): nat
    requires i + 4 <= |h|
  {
    h[i] as int + h[i + 1] as int * 256 + h[i + 2] as int * 65536 + h[i + 3] as int * 16777216
  }

  /** The bytes written are the digits of the word to base 256, the highest first or, little-endian, last. */
  lemma Digits(v: U32)
    ensures v < 0x1_0000 ==> Read2(Be16(v), 0) == v
    ensures v < 0x100_0000 ==> Read3(Be24(v), 0) == v
    ensures Read4(Be32(v), 0) == v && Read4Le(Le32(v), 0) == v
  {
    var hi, lo := v / 0x1_0000, v % 0x1_0000;
    assert v == hi * 0x1_0000 + lo;
  }

  /** And a word read is the number its digits make. */
  lemma DigitsRead(w: seq<Byte>, i: nat)
    ensures i + 2 <= |w| ==> FromBe16(w, i) == Read2(w, i)
    ensures i + 3 <= |w| ==> FromBe24(w, i) == Read3(w, i)
    ensures i + 4 <= |w| ==> FromBe32(w, i) == Read4(w, i) && FromLe32(w, i) == Read4Le(w, i)
  {
  }

  lemma ReadWhere(h: seq<Byte>, i: nat, p: seq<Byte>)
    requires i + |p| <= |h| && h[i..i + |p|] == p
    ensures forall k :: 0 <= k < |p| ==> h[i + k] == p[k]
    ensures |p| >= 2 ==> Read2(h, i) == Read2(p, 0)
    ensures |p| >= 3 ==> Read3(h, i) == Read3(p, 0)
    ensures |p| >= 4 ==> Read4(h, i) == Read4(p, 0) && Read4Le(h, i) == Read4Le(p, 0)
  {
    forall k | 0 <= k < |p| ensures h[i + k] == p[k] {
      assert h[i..i + |p|][k] == p[k];
    }
    if |p| >= 3 {
      assert h[i] == p[0] && h[i + 1] == p[1] && h[i + 2] == p[2];
    }
    if |p| >= 4 {
      assert h[i + 3] == p[3];
    }
  }

  lemma ConcatAssoc<T>(a: seq<T>, b: seq<T>, c: seq<T>)
    ensures (a + b) + c == a + (b + c)
  {
  }

  lemma Sections<T>(a: seq<T>, b: seq<T>, c: seq<T>, d: seq<T>)
    ensures var w, i, j := a + b + c + d, |a| + |b|, |a| + |b| + |c|;
            w[..|a|] == a && w[|a|..i] == b && w[i..j] == c && w[j..] == d
  {
  }

  lemma Middle<T>(a: seq<T>, b: seq<T>, c: seq<T>)
    ensures (a + (b + c))[|a|..|a| + |b|] == b
  {
  }

  lemma SubSlice<T>(w: seq<T>, b: nat, h: seq<T>, i: nat, j: nat)
    requires i <= j <= |h| && b + |h| <= |w| && w[b..b + |h|] == h
    ensures w[b + i..b + j] == h[i..j]
  {
    forall k | i <= k < j ensures w[b + k] == h[k] {
      assert w[b..b + |h|][k] == w[b + k];
    }
  }

  /** Three consecutive pieces found again where they lie. */
  lemma Pieces<T>(w: seq<T>, i: nat, a: seq<T>, b: seq<T>, c: seq<T>)
    requires i + |a| + |b| + |c| <= |w| && w[i..i + |a| + |b| + |c|] == a + b + c
    ensures w[i..i + |a|] == a
    ensures w[i + |a|..i + |a| + |b|] == b
    ensures w[i + |a| + |b|..i + |a| + |b| + |c|] == c
  {
    var h := a + b + c;
    Sections(a, b, c, []);
    assert a + b + c + [] == h;
    SubSlice(w, i, h, 0, |a|);
    SubSlice(w, i, h, |a|, |a| + |b|);
    SubSlice(w, i, h, |a| + |b|, |h|);
  }

  /** Wherever an encoded word sits in a buffer, decoding there returns it. */
  lemma WordAt16(b: seq<Byte>, i: nat, v: U16)
    requires i + 2 <= |b| && b[i..i + 2] == Be16(v)
    ensures FromBe16(b, i) == v
  {
    assert b[i] == b[i..i + 2][0] && b[i + 1] == b[i..i + 2][1];
  }

  lemma WordAt24(b: seq<Byte>, i: nat, v: U24)
    requires i + 3 <= |b| && b[i..i + 3] == Be24(v)
    ensures FromBe24(b, i) == v
  {
    var s := b[i..i + 3];
    assert b[i] == s[0] && b[i + 1] == s[1] && b[i + 2] == s[2];
  }

  lemma WordAt32(b: seq<Byte>, i: nat, v: U32)
    requires i + 4 <= |b| && b[i..i + 4] == Be32(v)
    ensures FromBe32(b, i) == v
  {
    var s := b[i..i + 4];
    assert b[i] == s[0] && b[i + 1] == s[1] && b[i + 2] == s[2] && b[i + 3] == s[3];
  }

  lemma WordAtLe32(b: seq<Byte>, i: nat, v: U32)
    requires i + 4 <= |b| && b[i..i + 4] == Le32(v)
    ensures FromLe32(b, i) == v
  {
    var s := b[i..i + 4];
    assert b[i] == s[0] && b[i + 1] == s[1] && b[i + 2] == s[2] && b[i + 3] == s[3];
  }

  // ----- bytes copied into a buffer -----

  /** s with t copied over it at position i. */
  function Splice(s: seq<Byte>, i: nat, t: seq<Byte>): (r: seq<Byte>)
    requires i + |t| <= |s|
    ensures |r| == |s| && r[i..i + |t|] == t
  {
    s[..i] + t + s[i + |t|..]
  }

  lemma SpliceTwice(s: seq<Byte>, i: nat, t: seq<Byte>, u: seq<Byte>)
    requires i + |t| + |u| <= |s|
    ensures Splice(Splice(s, i, t), i + |t|, u) == Splice(s, i, t + u)
  {
    assert Splice(s, i, t)[..i + |t|] == s[..i] + t;
    assert Splice(s, i, t)[i + |t| + |u|..] == s[i + |t| + |u|..];
    ConcatAssoc(s[..i], t, u);
  }

  lemma SpliceNothing(s: seq<Byte>, i: nat)
    requires i <= |s|
    ensures Splice(s, i, []) == s
  {
  }

  lemma SpliceAt(s: seq<Byte>, i: nat, t: seq<Byte>, r: seq<Byte>)
    requires i + |t| <= |s| == |r|
    requires forall k :: 0 <= k < |t| ==> r[i + k] == t[k]
    requires forall k :: 0 <= k < i || i + |t| <= k < |s| ==> r[k] == s[k]
    ensures r == Splice(s, i, t)
  {
  }

  /** memcpy of a value sequence. */
  method Copy(mem: array<Byte>, pos: nat, data: seq<Byte>)
    requires pos + |data| <= mem.Length
    modifies mem
    ensures mem[..] == Splice(old(mem[..]), pos, data)
  {
    ghost var was := mem[..];
    for i := 0 to |data|
      invariant forall k :: 0 <= k < i ==> mem[pos + k] == data[k]
      invariant forall k :: 0 <= k < pos || pos + i <= k < mem.Length ==> mem[k] == was[k]
    {
      mem[pos + i] := data[i];
    }
    SpliceAt(was, pos, data, mem[..]);
  }

  /** Concatenation of a list of byte strings. */
  function Flatten(parts: seq<seq<Byte>>): seq<Byte> {
    if parts == [] then [] else parts[0] + Flatten(parts[1..])
  }

  lemma FlattenNone()
    ensures Flatten([]) == []
  {
  }

  lemma FlattenCons(ps: seq<seq<Byte>>)
    requires ps != []
    ensures Flatten(ps) == ps[0] + Flatten(ps[1..])
  {
  }

  lemma {:induction false} FlattenConcat(a: seq<seq<Byte>>, b: seq<seq<Byte>>)
    ensures Flatten(a + b) == Flatten(a) + Flatten(b)
  {
    if a == [] {
      assert a + b == b;
    } else {
      FlattenConcat(a[1..], b);
      assert (a + b)[1..] == a[1..] + b;
      ConcatAssoc(a[0], Flatten(a[1..]), Flatten(b));
    }
  }
}
