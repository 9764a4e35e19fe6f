/** The block loop of DecodeTEA (librtmp/rtmp.c) against corrected Block TEA encryption. The mixing function
    is a parameter: the loop inverts the cipher whatever it mixes. */
module Xxtea {
  import opened Bytes

  const DELTA: U32 := 0x9e3779b9

  /** The inverse of DELTA modulo 2^32, which is odd. */
  const INVERSE: U32 := 0x144cbc89

  /** MX of the source, of z, y, sum and p; the key is part of the function. */
  type Mix = (U32, U32, U32, nat) -> U32

  function Plus(a: U32, b: U32): U32 {
    (a + b) % TWO32
  }

  function Minus(a: U32, b: U32): U32 {
    (a - b) % TWO32
  }

  function Rounds(n: nat): (q: nat)
    requires n >= 1
    ensures 6 <= q <= 58
  {
    6 + 52 / n
  }

  function Before(n: nat, p: nat): (i: nat)
    requires p < n
    ensures i < n && (n >= 2 ==> i != p)
  {
    if p == 0 then n - 1 else p - 1
  }

  function Behind(n: nat, p: nat): (i: nat)
    requires p < n
    ensures i < n && (n >= 2 ==> i != p)
  {
    if p == n - 1 then 0 else p + 1
  }

  function Mixed(mx: Mix, v: seq<U32>, sum: U32, p: nat): U32
    requires p < |v|
  {
    mx(v[Before(|v|, p)], v[Behind(|v|, p)], sum, p)
  }

  /** The sum of round r. */
  function SumOf(r: nat): U32 {
    r * DELTA % TWO32
  }

  // ----- encryption: words first to last, rounds with sum DELTA, 2 DELTA, ... -----

  function EncryptWords(mx: Mix, v: seq<U32>, sum: U32, p: nat): (r: seq<U32>)
    requires p <= |v|
    ensures |r| == |v|
    decreases |v| - p
  {
    if p == |v| then v else EncryptWords(mx, v[p := Plus(v[p], Mixed(mx, v, sum, p))], sum, p + 1)
  }

  function EncryptRounds(mx: Mix, v: seq<U32>, r: nat): (w: seq<U32>)
    ensures |w| == |v|
    decreases r
  {
    if r == 0 then v else EncryptWords(mx, EncryptRounds(mx, v, r - 1), SumOf(r), 0)
  }

  function Encrypt(mx: Mix, v: seq<U32>): seq<U32>
    requires |v| >= 2
  {
    EncryptRounds(mx, v, Rounds(|v|))
  }

  // ----- decryption: the same words the other way round -----

  /** Words p - 1 down to 0. */
  function DecryptWords(mx: Mix, v: seq<U32>, sum: U32, p: nat): (r: seq<U32>)
    requires p <= |v|
    ensures |r| == |v|
    decreases p
  {
    if p == 0 then v else DecryptWords(mx, v[p - 1 := Minus(v[p - 1], Mixed(mx, v, sum, p - 1))], sum, p - 1)
  }

  function DecryptRounds(mx: Mix, v: seq<U32>, r: nat): (w: seq<U32>)
    ensures |w| == |v|
    decreases r
  {
    if r == 0 then v else DecryptRounds(mx, DecryptWords(mx, v, SumOf(r), |v|), r - 1)
  }

  lemma MinusPlus(a: U32, b: U32)
    ensures Minus(Plus(a, b), b) == a
  {
  }

  /** Undoing the words from p on and then those before p. */
  lemma {:induction false} DecryptSplit(mx: Mix, v: seq<U32>, sum: U32, p: nat)
    requires |v| >= 2 && p <= |v|
    ensures DecryptWords(mx, EncryptWords(mx, v, sum, p), sum, |v|) == DecryptWords(mx, v, sum, p)
    decreases |v| - p
  {
    if p < |v| {
      var x := Mixed(mx, v, sum, p);
      var w := v[p := Plus(v[p], x)];
      DecryptSplit(mx, w, sum, p + 1);
      assert Mixed(mx, w, sum, p) == x;
      MinusPlus(v[p], x);
      assert w[p := v[p]] == v;
    }
  }

  lemma {:induction false} RoundsUndone(mx: Mix, v: seq<U32>, r: nat)
    requires |v| >= 2
    ensures DecryptRounds(mx, EncryptRounds(mx, v, r), r) == v
    decreases r
  {
    if r > 0 {
      var w := EncryptRounds(mx, v, r - 1);
      DecryptSplit(mx, w, SumOf(r), 0);
      RoundsUndone(mx, v, r - 1);
    }
  }

  lemma PlusMinus(a: U32, b: U32)
    ensures Plus(Minus(a, b), b) == a
  {
  }

  /** Redoing all words after those before p were undone redoes those from p on. */
  lemma {:induction false} EncryptSplit(mx: Mix, v: seq<U32>, sum: U32, p: nat)
    requires |v| >= 2 && p <= |v|
    ensures EncryptWords(mx, DecryptWords(mx, v, sum, p), sum, 0) == EncryptWords(mx, v, sum, p)
    decreases p
  {
    if p > 0 {
      var x := Mixed(mx, v, sum, p - 1);
      var w := v[p - 1 := Minus(v[p - 1], x)];
      EncryptSplit(mx, w, sum, p - 1);
      assert Mixed(mx, w, sum, p - 1) == x;
      PlusMinus(v[p - 1], x);
      assert w[p - 1 := v[p - 1]] == v;
    }
  }

  lemma {:induction false} RoundsRedone(mx: Mix, v: seq<U32>, r: nat)
    requires |v| >= 2
    ensures EncryptRounds(mx, DecryptRounds(mx, v, r), r) == v
    decreases r
  {
    if r > 0 {
      var w := DecryptWords(mx, v, SumOf(r), |v|);
      RoundsRedone(mx, w, r - 1);
      EncryptSplit(mx, v, SumOf(r), |v|);
    }
  }

  // ----- the round counter -----

  lemma ModPeriod(a: int, c: int)
    ensures (a - c * TWO32) % TWO32 == a % TWO32
  {
    var q, r := a / TWO32, a % TWO32;
    assert a - c * TWO32 == (q - c) * TWO32 + r;
  }

  /** DELTA is odd, so the sum returns to zero only after 2^32 rounds. */
  lemma SumZero(r: nat)
    requires r < TWO32
    ensures SumOf(r) == 0 <==> r == 0
  {
    if r * DELTA % TWO32 == 0 {
      var c := r * DELTA / TWO32;
      var m := INVERSE * DELTA / TWO32;
      assert r * DELTA == c * TWO32;
      assert INVERSE * DELTA == m * TWO32 + 1;
      calc {
        r;
        r * (INVERSE * DELTA - m * TWO32);
        r * DELTA * INVERSE - r * m * TWO32;
        c * TWO32 * INVERSE - r * m * TWO32;
        (c * INVERSE - r * m) * TWO32;
      }
    }
  }

  lemma SumSteps(r: nat)
    requires r > 0
    ensures Minus(SumOf(r), DELTA) == SumOf(r - 1)
  {
    var c := r * DELTA / TWO32;
    assert SumOf(r) == r * DELTA - c * TWO32;
    ModPeriod((r - 1) * DELTA, c);
  }

  lemma RoundsBound(n: nat)
    requires n >= 1
    ensures 6 + 52 / n == Rounds(n) < TWO32
  {
  }

  /** The loop counts q rounds down by the sum alone. */
  method DecodeRounds(mx: Mix, v: array<U32>, q: nat) returns (ghost rounds: nat)
    requires v.Length >= 1 && q < TWO32
    modifies v
    ensures rounds == q && v[..] == DecryptRounds(mx, old(v[..]), q)
  {
    hide SumOf, Minus, DecryptWords;
    ghost var was := v[..];
    var sum := SumOf(q);
    ghost var r: nat := q;
    rounds := 0;
    SumZero(r);
    while sum != 0
      invariant rounds + r == q && sum == SumOf(r)
      invariant sum == 0 <==> r == 0
      invariant DecryptRounds(mx, v[..], r) == DecryptRounds(mx, was, q)
      decreases r
    {
      DecodeRound(mx, v, sum);
      SumSteps(r);
      sum := Minus(sum, DELTA);
      r, rounds := r - 1, rounds + 1;
      SumZero(r);
    }
  }

  /** The loop undoes the encryption, in exactly 6 + 52 / n rounds: of two words or more it leaves the one block
      that encrypts to what it was given. A single word, which the cipher does not know, mixes with itself. */
  method DecodeBlock(mx: Mix, v: array<U32>) returns (ghost rounds: nat)
    requires v.Length >= 1
    modifies v
    ensures rounds == Rounds(v.Length) && v[..] == DecryptRounds(mx, old(v[..]), Rounds(v.Length))
    ensures v.Length >= 2 ==> Encrypt(mx, v[..]) == old(v[..])
    ensures forall w: seq<U32> :: v.Length == |w| >= 2 && Encrypt(mx, w) == old(v[..]) ==> v[..] == w
  {
    hide DecryptRounds, EncryptRounds;
    ghost var was := v[..];
    var n := v.Length;
    var q := 6 + 52 / n;
    RoundsBound(n);
    rounds := DecodeRounds(mx, v, q);
    if n >= 2 {
      RoundsRedone(mx, was, q);
      forall w: seq<U32> | |w| == n && Encrypt(mx, w) == was ensures v[..] == w {
        RoundsUndone(mx, w, q);
      }
    }
  }

  /** One round. The y it starts from is the first word, which is where the round before left y. */
  method DecodeRound(mx: Mix, v: array<U32>, sum: U32)
    requires v.Length >= 1
    modifies v
    ensures v[..] == DecryptWords(mx, old(v[..]), sum, v.Length)
  {
    var n := v.Length;
    ghost var was := v[..];
    var y := v[0];
    var p := n - 1;
    var z;
    while p > 0
      invariant 0 <= p < n && y == v[Behind(n, p)]
      invariant DecryptWords(mx, v[..], sum, p + 1) == DecryptWords(mx, was, sum, n)
    {
      z := v[p - 1];
      ghost var now := v[..];
      v[p] := Minus(v[p], mx(z, y, sum, p));
      assert v[..] == now[p := Minus(now[p], Mixed(mx, now, sum, p))];
      y := v[p];
      p := p - 1;
    }
    z := v[n - 1];
    ghost var now := v[..];
    v[0] := Minus(v[0], mx(z, y, sum, p));
    assert v[..] == now[0 := Minus(now[0], Mixed(mx, now, sum, 0))];
  }
}
