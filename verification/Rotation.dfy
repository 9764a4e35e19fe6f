/** The three copying paths of addOsd (osd/YuvUtils.cpp): an NV21 frame with its chroma bytes swapped, as it
    is, turned by 90 degrees or by 270. The frame is W by H with both even. */
module Rotation {
  import opened Bytes
  import opened Arithmetic

  predicate Even(w: nat, h: nat) {
    w % 2 == 0 && h % 2 == 0
  }

  /** Bytes of the whole frame. */
  function Frame(w: nat, h: nat): nat {
    w * h + w * (h / 2)
  }

  datatype Turn = By90 | By270

  // ----- where a byte of the result comes from -----

  /** Luma byte n of the turned frame: column n / h, read upwards, or from the last column on downwards. */
  function LumaFrom(t: Turn, w: nat, h: nat, n: nat): int
    requires h > 0
  {
    if t.By90? then (h - 1 - n % h) * w + n / h
    else n % h * w + (w - 1 - n / h)
  }

  /** Chroma byte m likewise; a column of pairs holds h bytes, and the two bytes of a pair change places. */
  function ChromaFrom(t: Turn, w: nat, h: nat, m: nat): int
    requires h > 0
  {
    if t.By90? then (h / 2 - 1 - m % h / 2) * w + 2 * (m / h) + 1 - m % 2
    else m % h / 2 * w + (w - 1 - 2 * (m / h)) - m % 2
  }

  lemma DivMod(q: nat, r: nat, h: nat)
    requires r < h
    ensures (q * h + r) / h == q && (q * h + r) % h == r
  {
    assert (q + 1) * h == q * h + h;
    DivUnique(q * h + r, h, q);
  }

  lemma Splits(n: nat, q: nat, h: nat)
    requires h > 0 && n < q * h
    ensures n / h < q && n % h < h && n == n / h * h + n % h
  {
    if n / h >= q {
      MulMono(q, n / h, h);
    }
  }

  /** Turning by 90 and back by 270 ends where it began: luma. */
  lemma LumaReturns(w: nat, h: nat, n: nat)
    requires h > 0 && w > 0 && n < w * h
    ensures 0 <= LumaFrom(By270, h, w, n) < w * h
    ensures LumaFrom(By90, w, h, LumaFrom(By270, h, w, n)) == n
  {
    hide LumaFrom;
    assert h * w == w * h;
    Splits(n, h, w);
    var y, x := n / w, n % w;
    Luma270Is(w, h, y, x);
    LumaReturnsAt(w, h, y, x);
  }

  lemma Luma270Is(w: nat, h: nat, y: nat, x: nat)
    requires y < h && x < w
    ensures LumaFrom(By270, h, w, y * w + x) == x * h + (h - 1 - y)
  {
    DivMod(y, x, w);
  }

  lemma LumaReturnsAt(w: nat, h: nat, y: nat, x: nat)
    requires y < h && x < w
    ensures var m := x * h + (h - 1 - y); 0 <= m < w * h && LumaFrom(By90, w, h, m) == y * w + x
  {
    DivMod(x, h - 1 - y, h);
    MulMono(x + 1, w, h);
    assert (x + 1) * h == x * h + h;
  }

  lemma ChromaReturnsAt(w: nat, h: nat, y: nat, x: nat)
    requires Even(w, h) && y < h / 2 && x < w
    ensures var m := x / 2 * h + (h - 1 - 2 * y - x % 2);
            0 <= m < w * (h / 2) && ChromaFrom(By90, w, h, m) == y * w + x
  {
    var r := h - 1 - 2 * y - x % 2;
    var m := x / 2 * h + r;
    DivMod(x / 2, r, h);
    EvenBase(x / 2, h, r);
    assert r / 2 == h / 2 - 1 - y && m % 2 == 1 - x % 2;
    MulMono(x / 2 + 1, w / 2, h);
    assert (x / 2 + 1) * h == x / 2 * h + h;
    HalfProduct(w, h);
  }

  /** And chroma. */
  lemma ChromaReturns(w: nat, h: nat, n: nat)
    requires Even(w, h) && h > 0 && w > 0 && n < w * (h / 2)
    ensures 0 <= ChromaFrom(By270, h, w, n) < w * (h / 2)
    ensures ChromaFrom(By90, w, h, ChromaFrom(By270, h, w, n)) == n
  {
    hide ChromaFrom;
    assert w * (h / 2) == h / 2 * w;
    Splits(n, h / 2, w);
    var y, x := n / w, n % w;
    Chroma270Is(w, h, y, x);
    ChromaReturnsAt(w, h, y, x);
  }

  lemma Chroma270Is(w: nat, h: nat, y: nat, x: nat)
    requires Even(w, h) && x < w
    ensures ChromaFrom(By270, h, w, y * w + x) == x / 2 * h + (h - 1 - 2 * y - x % 2)
  {
    DivMod(y, x, w);
    EvenBase(y, w, x);
  }

  lemma EvenBase(q: nat, w: nat, x: nat)
    requires w % 2 == 0
    ensures (q * w + x) % 2 == x % 2
  {
    assert q * w == 2 * (q * (w / 2));
  }

  lemma HalfProduct(w: nat, h: nat)
    requires Even(w, h)
    ensures w / 2 * h == w * (h / 2)
  {
    assert w == 2 * (w / 2) && h == 2 * (h / 2);
    assert w / 2 * h == w / 2 * (2 * (h / 2));
    assert w * (h / 2) == 2 * (w / 2) * (h / 2);
  }

  // ----- what a path makes of a frame -----

  /** The first k luma bytes of the result are in place. */
  ghost predicate LumaDone(t: Turn, src: seq<Byte>, dest: seq<Byte>, w: nat, h: nat, k: nat)
    requires h > 0
  {
    && |src| == |dest| == Frame(w, h) && k <= w * h
    && forall n :: 0 <= n < k ==> 0 <= LumaFrom(t, w, h, n) < w * h && dest[n] == src[LumaFrom(t, w, h, n)]
  }

  ghost predicate ChromaDone(t: Turn, src: seq<Byte>, dest: seq<Byte>, w: nat, h: nat, k: nat)
    requires h > 0
  {
    && |src| == |dest| == Frame(w, h) && k <= w * (h / 2)
    && forall m :: 0 <= m < k ==> 0 <= ChromaFrom(t, w, h, m) < w * (h / 2)
                                  && dest[w * h + m] == src[w * h + ChromaFrom(t, w, h, m)]
  }

  ghost predicate Turned(t: Turn, src: seq<Byte>, dest: seq<Byte>, w: nat, h: nat)
    requires h > 0
  {
    LumaDone(t, src, dest, w, h, w * h) && ChromaDone(t, src, dest, w, h, w * (h / 2))
  }

  /** 90 degrees on W by H and then 270 on H by W restore the frame byte for byte. */
  lemma ThereAndBack(src: seq<Byte>, mid: seq<Byte>, dest: seq<Byte>, w: nat, h: nat)
    requires Even(w, h) && w > 0 && h > 0
    requires Turned(By90, src, mid, w, h) && Turned(By270, mid, dest, h, w)
    ensures dest == src
  {
    hide LumaFrom, ChromaFrom;
    HalfProduct(w, h);
    assert w * h == h * w && h * (w / 2) == w / 2 * h;
    forall k | 0 <= k < |src| ensures dest[k] == src[k] {
      if k < w * h {
        LumaReturns(w, h, k);
      } else {
        ChromaReturns(w, h, k - w * h);
        assert k == w * h + (k - w * h);
      }
    }
  }

  // ----- the loops, which write the result from front to back -----

  lemma LumaStep(t: Turn, src: seq<Byte>, dest: seq<Byte>, w: nat, h: nat, k: nat, b: Byte)
    requires h > 0 && LumaDone(t, src, dest, w, h, k) && k < w * h
    requires 0 <= LumaFrom(t, w, h, k) < w * h && b == src[LumaFrom(t, w, h, k)]
    ensures LumaDone(t, src, dest[k := b], w, h, k + 1)
  {
    hide LumaFrom;
  }

  lemma ChromaStep(t: Turn, src: seq<Byte>, dest: seq<Byte>, w: nat, h: nat, k: nat, b: Byte)
    requires h > 0 && LumaDone(t, src, dest, w, h, w * h) && ChromaDone(t, src, dest, w, h, k) && k < w * (h / 2)
    requires 0 <= ChromaFrom(t, w, h, k) < w * (h / 2) && b == src[w * h + ChromaFrom(t, w, h, k)]
    ensures LumaDone(t, src, dest[w * h + k := b], w, h, w * h)
    ensures ChromaDone(t, src, dest[w * h + k := b], w, h, k + 1)
  {
    hide LumaFrom, ChromaFrom;
  }

  lemma Cell(q: nat, r: nat, n: nat, h: nat)
    requires q < n && r < h
    ensures q * h + r < n * h
  {
    MulMono(q + 1, n, h);
    assert (q + 1) * h == q * h + h;
  }

  lemma LumaFromAt(t: Turn, w: nat, h: nat, q: nat, r: nat)
    requires r < h
    ensures LumaFrom(t, w, h, q * h + r) == if t.By90? then (h - 1 - r) * w + q else r * w + (w - 1 - q)
  {
    DivMod(q, r, h);
  }

  lemma ChromaFromAt(t: Turn, w: nat, h: nat, q: nat, r: nat)
    requires h % 2 == 0 && r < h
    ensures ChromaFrom(t, w, h, q * h + r)
            == if t.By90? then (h / 2 - 1 - r / 2) * w + 2 * q + 1 - r % 2 else r / 2 * w + (w - 1 - 2 * q) - r % 2
  {
    DivMod(q, r, h);
    EvenBase(q, h, r);
  }

  lemma ChromaPlace(w: nat, h: nat, q: nat, r: nat)
    requires Even(w, h) && q < w / 2 && r < h
    ensures q * h + r < w * (h / 2)
  {
    Cell(q, r, w / 2, h);
    HalfProduct(w, h);
  }

  lemma ChromaSource(w: nat, h: nat, j: nat, x: nat)
    requires j < h / 2 && x < w
    ensures j * w + x < w * (h / 2)
  {
    Cell(j, x, h / 2, w);
  }

  lemma Luma90At(w: nat, h: nat, i: nat, j: nat)
    requires i < w && j < h
    ensures LumaFrom(By90, w, h, i * h + (h - 1 - j)) == j * w + i < w * h
    ensures i * h + (h - 1 - j) < w * h
  {
    hide LumaFrom;
    LumaFromAt(By90, w, h, i, h - 1 - j);
    assert h - 1 - (h - 1 - j) == j;
    Cell(i, h - 1 - j, w, h);
    Cell(j, i, h, w);
  }

  /** In the c-th column from the right. */
  lemma Luma270At(w: nat, h: nat, c: nat, j: nat)
    requires c < w && j < h
    ensures LumaFrom(By270, w, h, c * h + j) == j * w + (w - 1 - c) < w * h
    ensures c * h + j < w * h
  {
    hide LumaFrom;
    LumaFromAt(By270, w, h, c, j);
    Cell(c, j, w, h);
    Cell(j, w - 1 - c, h, w);
  }

  lemma Chroma90At(w: nat, h: nat, i: nat, j: nat, b: nat)
    requires Even(w, h) && i < w && i % 2 == 0 && j < h / 2 && b < 2
    ensures var m := i / 2 * h + 2 * (h / 2 - 1 - j) + b;
            ChromaFrom(By90, w, h, m) == j * w + i + 1 - b < w * (h / 2) && m < w * (h / 2)
  {
    hide ChromaFrom;
    var q, r := i / 2, 2 * (h / 2 - 1 - j) + b;
    ChromaFromAt(By90, w, h, q, r);
    assert h / 2 - 1 - r / 2 == j && r % 2 == b && 2 * q == i;
    ChromaPlace(w, h, q, r);
    ChromaSource(w, h, j, i + 1);
  }

  lemma Chroma270At(w: nat, h: nat, i: nat, j: nat, b: nat)
    requires Even(w, h) && i < w && i % 2 == 1 && j < h / 2 && b < 2
    ensures var m := (w - 1 - i) / 2 * h + 2 * j + b;
            ChromaFrom(By270, w, h, m) == j * w + i - b < w * (h / 2) && m < w * (h / 2)
  {
    hide ChromaFrom;
    var q, r := (w - 1 - i) / 2, 2 * j + b;
    ChromaFromAt(By270, w, h, q, r);
    assert r / 2 == j && r % 2 == b && w - 1 - 2 * q == i;
    ChromaPlace(w, h, q, r);
    ChromaSource(w, h, j, i);
  }

  method PutLuma(t: Turn, nv21Src: array<Byte>, destData: array<Byte>, w: nat, h: nat, k: nat, at: nat)
    requires h > 0 && nv21Src != destData && LumaDone(t, nv21Src[..], destData[..], w, h, k)
    requires k < w * h && LumaFrom(t, w, h, k) == at < w * h
    modifies destData
    ensures LumaDone(t, nv21Src[..], destData[..], w, h, k + 1)
  {
    ghost var was := destData[..];
    LumaStep(t, nv21Src[..], was, w, h, k, nv21Src[at]);
    destData[k] := nv21Src[at];
    assert destData[..] == was[k := nv21Src[at]];
  }

  /** A pair of chroma bytes, the second of the source first. */
  method PutChroma(t: Turn, nv21Src: array<Byte>, destData: array<Byte>, w: nat, h: nat, k: nat, at: nat)
    requires h > 0 && nv21Src != destData && w * h <= k && k + 1 < w * h + w * (h / 2) && at > 0
    requires LumaDone(t, nv21Src[..], destData[..], w, h, w * h)
    requires ChromaDone(t, nv21Src[..], destData[..], w, h, k - w * h)
    requires ChromaFrom(t, w, h, k - w * h) == at < w * (h / 2) && ChromaFrom(t, w, h, k + 1 - w * h) == at - 1
    modifies destData
    ensures LumaDone(t, nv21Src[..], destData[..], w, h, w * h)
    ensures ChromaDone(t, nv21Src[..], destData[..], w, h, k + 2 - w * h)
  {
    hide LumaDone, ChromaDone, ChromaFrom;
    LumaLength(t, nv21Src[..], destData[..], w, h, w * h);
    ghost var src, was := nv21Src[..], destData[..];
    var framesize := w * h;
    ChromaStep(t, src, was, w, h, k - w * h, src[framesize + at]);
    destData[k] := nv21Src[framesize + at];
    assert destData[..] == was[k := src[framesize + at]];
    was := destData[..];
    ChromaStep(t, src, was, w, h, k + 1 - w * h, src[framesize + at - 1]);
    destData[k + 1] := nv21Src[framesize + at - 1];
    assert destData[..] == was[k + 1 := src[framesize + at - 1]];
  }

  lemma LumaLength(t: Turn, src: seq<Byte>, dest: seq<Byte>, w: nat, h: nat, k: nat)
    requires h > 0 && LumaDone(t, src, dest, w, h, k)
    ensures |src| == |dest| == w * h + w * (h / 2)
  {
  }

  method Rotate90Luma(nv21Src: array<Byte>, destData: array<Byte>, w: nat, h: nat) returns (k: nat)
    requires w > 0 && h > 0 && nv21Src != destData && nv21Src.Length == destData.Length == Frame(w, h)
    modifies destData
    ensures k == w * h && LumaDone(By90, nv21Src[..], destData[..], w, h, k)
  {
    hide LumaFrom, LumaDone;
    NothingDone(By90, nv21Src[..], destData[..], w, h);
    k := 0;
    for i := 0 to w
      invariant k == i * h
      invariant LumaDone(By90, nv21Src[..], destData[..], w, h, k)
    {
      var j: int := h - 1;
      while j >= 0
        invariant -1 <= j < h && k == i * h + (h - 1 - j)
        invariant LumaDone(By90, nv21Src[..], destData[..], w, h, k)
        decreases j
      {
        Luma90At(w, h, i, j);
        PutLuma(By90, nv21Src, destData, w, h, k, j * w + i);
        k := k + 1;
        j := j - 1;
      }
      NextMultiple(i, h);
    }
  }

  /** The chroma pairs of columns i and i + 1, from the bottom row up. */
  method ChromaColumn90(nv21Src: array<Byte>, destData: array<Byte>, w: nat, h: nat, i: nat, start: nat)
    returns (k: nat)
    requires Even(w, h) && h > 0 && i < w && i % 2 == 0 && nv21Src != destData && start == w * h + i / 2 * h
    requires LumaDone(By90, nv21Src[..], destData[..], w, h, w * h)
    requires ChromaDone(By90, nv21Src[..], destData[..], w, h, start - w * h)
    modifies destData
    ensures k == start + h
    ensures LumaDone(By90, nv21Src[..], destData[..], w, h, w * h)
    ensures ChromaDone(By90, nv21Src[..], destData[..], w, h, k - w * h)
  {
    hide ChromaFrom, LumaDone, ChromaDone;
    k := start;
    var uvHeight := h / 2;
    var j: int := uvHeight - 1;
    while j >= 0
      invariant -1 <= j < uvHeight && k == start + 2 * (h / 2 - 1 - j)
      invariant LumaDone(By90, nv21Src[..], destData[..], w, h, w * h)
      invariant ChromaDone(By90, nv21Src[..], destData[..], w, h, k - w * h)
      decreases j
    {
      Chroma90At(w, h, i, j, 0);
      Chroma90At(w, h, i, j, 1);
      PutChroma(By90, nv21Src, destData, w, h, k, j * w + i + 1);
      k := k + 2;
      j := j - 1;
    }
  }

  /** The path of rotation 90: it writes the whole result, each byte once, from front to back. */
  method Rotate90(nv21Src: array<Byte>, destData: array<Byte>, w: nat, h: nat) returns (k: nat)
    requires Even(w, h) && w > 0 && h > 0 && nv21Src != destData
    requires nv21Src.Length == destData.Length == Frame(w, h)
    modifies destData
    ensures k == Frame(w, h) && Turned(By90, nv21Src[..], destData[..], w, h)
  {
    hide LumaFrom, ChromaFrom, LumaDone, ChromaDone;
    k := Rotate90Luma(nv21Src, destData, w, h);
    NoChroma(By90, nv21Src[..], destData[..], w, h);
    var i := 0;
    while i < w
      invariant i % 2 == 0 && i <= w && k == w * h + i / 2 * h
      invariant LumaDone(By90, nv21Src[..], destData[..], w, h, w * h)
      invariant ChromaDone(By90, nv21Src[..], destData[..], w, h, k - w * h)
    {
      k := ChromaColumn90(nv21Src, destData, w, h, i, k);
      NextColumn(i, h);
      i := i + 2;
    }
    HalfProduct(w, h);
  }

  lemma NextColumn(i: nat, h: nat)
    requires i % 2 == 0
    ensures (i + 2) / 2 * h == i / 2 * h + h
  {
    assert (i + 2) / 2 == i / 2 + 1;
  }

  lemma NothingDone(t: Turn, src: seq<Byte>, dest: seq<Byte>, w: nat, h: nat)
    requires h > 0 && |src| == |dest| == Frame(w, h)
    ensures LumaDone(t, src, dest, w, h, 0)
  {
  }

  lemma NoChroma(t: Turn, src: seq<Byte>, dest: seq<Byte>, w: nat, h: nat)
    requires h > 0 && LumaDone(t, src, dest, w, h, w * h)
    ensures ChromaDone(t, src, dest, w, h, 0)
  {
  }

  method Rotate270Luma(nv21Src: array<Byte>, destData: array<Byte>, w: nat, h: nat) returns (k: nat)
    requires w > 0 && h > 0 && nv21Src != destData && nv21Src.Length == destData.Length == Frame(w, h)
    modifies destData
    ensures k == w * h && LumaDone(By270, nv21Src[..], destData[..], w, h, k)
  {
    hide LumaFrom, LumaDone;
    NothingDone(By270, nv21Src[..], destData[..], w, h);
    k := 0;
    var i: int := w - 1;
    ghost var c: nat := 0;
    while i >= 0
      invariant i == w - 1 - c >= -1 && k == c * h
      invariant LumaDone(By270, nv21Src[..], destData[..], w, h, k)
      decreases i
    {
      for j := 0 to h
        invariant k == c * h + j
        invariant LumaDone(By270, nv21Src[..], destData[..], w, h, k)
      {
        Luma270At(w, h, c, j);
        PutLuma(By270, nv21Src, destData, w, h, k, j * w + i);
        k := k + 1;
      }
      i := i - 1;
      NextMultiple(c, h);
      c := c + 1;
    }
  }

  lemma NextMultiple(c: nat, h: nat)
    ensures (c + 1) * h == c * h + h
  {
  }

  /** The chroma pairs of columns i - 1 and i, from the top row down. */
  method ChromaColumn270(nv21Src: array<Byte>, destData: array<Byte>, w: nat, h: nat, i: nat, start: nat)
    returns (k: nat)
    requires Even(w, h) && h > 0 && i < w && i % 2 == 1 && nv21Src != destData && start == w * h + (w - 1 - i) / 2 * h
    requires LumaDone(By270, nv21Src[..], destData[..], w, h, w * h)
    requires ChromaDone(By270, nv21Src[..], destData[..], w, h, start - w * h)
    modifies destData
    ensures k == start + h
    ensures LumaDone(By270, nv21Src[..], destData[..], w, h, w * h)
    ensures ChromaDone(By270, nv21Src[..], destData[..], w, h, k - w * h)
  {
    hide ChromaFrom, LumaDone, ChromaDone;
    k := start;
    var uvHeight := h / 2;
    for j := 0 to uvHeight
      invariant k == start + 2 * j
      invariant LumaDone(By270, nv21Src[..], destData[..], w, h, w * h)
      invariant ChromaDone(By270, nv21Src[..], destData[..], w, h, k - w * h)
    {
      Chroma270At(w, h, i, j, 0);
      Chroma270At(w, h, i, j, 1);
      PutChroma(By270, nv21Src, destData, w, h, k, j * w + i);
      k := k + 2;
    }
  }

  /** The path of rotation 270. */
  method Rotate270(nv21Src: array<Byte>, destData: array<Byte>, w: nat, h: nat) returns (k: nat)
    requires Even(w, h) && w > 0 && h > 0 && nv21Src != destData
    requires nv21Src.Length == destData.Length == Frame(w, h)
    modifies destData
    ensures k == Frame(w, h) && Turned(By270, nv21Src[..], destData[..], w, h)
  {
    hide LumaFrom, ChromaFrom, LumaDone, ChromaDone;
    k := Rotate270Luma(nv21Src, destData, w, h);
    NoChroma(By270, nv21Src[..], destData[..], w, h);
    var i: int := w - 1;
    ghost var c: nat := 0;
    while i >= 0
      invariant i == w - 1 - 2 * c >= -1 && k == w * h + c * h
      invariant LumaDone(By270, nv21Src[..], destData[..], w, h, w * h)
      invariant ChromaDone(By270, nv21Src[..], destData[..], w, h, k - w * h)
      decreases i
    {
      assert (w - 1 - i) / 2 == c;
      k := ChromaColumn270(nv21Src, destData, w, h, i, k);
      NextMultiple(c, h);
      c := c + 1;
      i := i - 2;
    }
    assert c == w / 2;
    HalfProduct(w, h);
  }

  // ----- no rotation -----

  function Mate(m: nat): nat {
    if m % 2 == 0 then m + 1 else m - 1
  }

  /** Luma as it is, the two bytes of each chroma pair exchanged. */
  ghost predicate Swapped(src: seq<Byte>, dest: seq<Byte>, luma: nat, chroma: nat) {
    && |src| == |dest| == luma + chroma && chroma % 2 == 0
    && dest[..luma] == src[..luma]
    && forall m :: 0 <= m < chroma ==> Mate(m) < chroma && dest[luma + m] == src[luma + Mate(m)]
  }

  lemma SwappedTwice(src: seq<Byte>, mid: seq<Byte>, dest: seq<Byte>, luma: nat, chroma: nat)
    requires Swapped(src, mid, luma, chroma) && Swapped(mid, dest, luma, chroma)
    ensures dest == src
  {
    var a, b := dest[luma..], src[luma..];
    forall m | 0 <= m < chroma ensures a[m] == b[m] {
      assert Mate(Mate(m)) == m;
      assert a[m] == dest[luma + m] && b[m] == src[luma + m];
    }
    assert a == b;
    assert dest == dest[..luma] + dest[luma..] && src == src[..luma] + src[luma..];
  }

  /** The path of rotation 0, for a frame of framesize luma bytes. */
  method Straight(nv21Src: array<Byte>, destData: array<Byte>, framesize: nat, chroma: nat)
    requires nv21Src != destData && nv21Src.Length == destData.Length == framesize + chroma && chroma % 2 == 0
    modifies destData
    ensures Swapped(nv21Src[..], destData[..], framesize, chroma)
  {
    for n := 0 to framesize
      invariant forall l :: 0 <= l < n ==> destData[l] == nv21Src[l]
    {
      destData[n] := nv21Src[n];
    }
    assert destData[..framesize] == nv21Src[..framesize];
    SwapPairs(nv21Src, destData, framesize, chroma);
    assert nv21Src[..][..framesize] == nv21Src[..framesize] && destData[..][..framesize] == destData[..framesize];
  }

  method SwapPairs(nv21Src: array<Byte>, destData: array<Byte>, framesize: nat, chroma: nat)
    requires nv21Src != destData && nv21Src.Length == destData.Length == framesize + chroma && chroma % 2 == 0
    modifies destData
    ensures destData[..framesize] == old(destData[..framesize])
    ensures forall m :: 0 <= m < chroma ==> Mate(m) < chroma && destData[framesize + m] == nv21Src[framesize + Mate(m)]
  {
    var j := 0;
    while j < chroma
      invariant j % 2 == 0 && j <= chroma
      invariant destData[..framesize] == old(destData[..framesize])
      invariant forall m :: 0 <= m < j ==> Mate(m) < chroma && destData[framesize + m] == nv21Src[framesize + Mate(m)]
    {
      destData[framesize + j] := nv21Src[framesize + j + 1];
      destData[framesize + j + 1] := nv21Src[framesize + j];
      assert Mate(j) == j + 1 && Mate(j + 1) == j;
      j := j + 2;
    }
  }
}
