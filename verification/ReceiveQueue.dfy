/** The queue of received packets of a source (ProcessRTPPacket in rtpinternalsourcedata.cpp): sorted by
    extended sequence number, bounded while the source is on probation. Whether the statistics accept a
    packet, and whether the callback takes it, are inputs of each call. */
module ReceiveQueue {
  import opened Bytes

  const MAX_PROBATION_PACKETS: nat := 32

  datatype RTPPacket = RTPPacket(extseqnr: U32, payload: seq<Byte>)

  datatype ProbationType = ProbationStore | ProbationDiscard | NoProbation

  ghost predicate StrictlyIncreasing(q: seq<RTPPacket>) {
    forall i, j :: 0 <= i < j < |q| ==> q[i].extseqnr < q[j].extseqnr
  }

  /** The queue with the packet at its place, or as it was if its number is taken. */
  function Insert(q: seq<RTPPacket>, p: RTPPacket): (r: seq<RTPPacket>)
    ensures |q| <= |r| <= |q| + 1
  {
    if q == [] then [p]
    else if q[|q| - 1].extseqnr < p.extseqnr then q + [p]
    else if q[|q| - 1].extseqnr == p.extseqnr then q
    else Insert(q[..|q| - 1], p) + [q[|q| - 1]]
  }

  ghost predicate HasNumber(q: seq<RTPPacket>, n: U32) {
    exists x :: x in q && x.extseqnr == n
  }

  lemma Below(init: seq<RTPPacket>, last: RTPPacket)
    ensures StrictlyIncreasing(init + [last])
            <==> StrictlyIncreasing(init) && forall x :: x in init ==> x.extseqnr < last.extseqnr
  {
    var q := init + [last];
    if StrictlyIncreasing(q) {
      forall i, j | 0 <= i < j < |init| ensures init[i].extseqnr < init[j].extseqnr {
        assert q[i].extseqnr < q[j].extseqnr;
      }
      forall x | x in init ensures x.extseqnr < last.extseqnr {
        var i :| 0 <= i < |init| && init[i] == x;
        assert q[i].extseqnr < q[|init|].extseqnr;
      }
    }
  }

  /** The queue stays sorted, nothing leaves it, and the packet joins it unless its number is taken. */
  lemma {:induction false} InsertKeeps(q: seq<RTPPacket>, p: RTPPacket)
    requires StrictlyIncreasing(q)
    ensures StrictlyIncreasing(Insert(q, p))
    ensures forall x :: x in Insert(q, p) <==> x in q || (x == p && !HasNumber(q, p.extseqnr))
    ensures |Insert(q, p)| == |q| + if HasNumber(q, p.extseqnr) then 0 else 1
    decreases |q|
  {
    hide StrictlyIncreasing;
    if q == [] {
      Below([], p);
      assert [] + [p] == [p];
      assert StrictlyIncreasing(q) && !HasNumber(q, p.extseqnr);
    } else {
      var init, last := q[..|q| - 1], q[|q| - 1];
      assert q == init + [last];
      Below(init, last);
      assert last in q;
      if last.extseqnr < p.extseqnr {
        Below(q, p);
      } else if last.extseqnr > p.extseqnr {
        InsertKeeps(init, p);
        Below(Insert(init, p), last);
        assert HasNumber(init, p.extseqnr) <==> HasNumber(q, p.extseqnr);
      }
    }
  }

  /** Sorted lists of the same packets are the same list. */
  lemma {:induction false} SortedUnique(a: seq<RTPPacket>, b: seq<RTPPacket>)
    requires StrictlyIncreasing(a) && StrictlyIncreasing(b)
    requires forall x :: x in a <==> x in b
    ensures a == b
    decreases |a|
  {
    assert b != [] ==> b[0] in b;
    if a != [] {
      assert a[0] in b && b != [];
      assert b[0] in a;
      var i :| 0 <= i < |b| && b[i] == a[0];
      var j :| 0 <= j < |a| && a[j] == b[0];
      assert a[0] == b[0];
      forall x ensures x in a[1..] <==> x in b[1..] {
        Tail(a, x);
        Tail(b, x);
      }
      SortedUnique(a[1..], b[1..]);
    }
  }

  lemma Tail(a: seq<RTPPacket>, x: RTPPacket)
    requires StrictlyIncreasing(a) && a != []
    ensures x in a[1..] <==> x in a && x != a[0]
  {
    if x in a[1..] {
      var i :| 0 <= i < |a[1..]| && a[1..][i] == x;
      assert a[i + 1] == x;
    }
  }

  ghost predicate DistinctNumbers(ps: seq<RTPPacket>) {
    forall i, j :: 0 <= i < j < |ps| ==> ps[i].extseqnr != ps[j].extseqnr
  }

  lemma {:induction false} InsertBehind(q: seq<RTPPacket>, p: RTPPacket, k: nat)
    requires k <= |q| && (k > 0 ==> q[k - 1].extseqnr < p.extseqnr)
    requires forall i :: k <= i < |q| ==> q[i].extseqnr > p.extseqnr
    ensures Insert(q, p) == q[..k] + [p] + q[k..]
    decreases |q|
  {
    if k < |q| {
      var n := |q| - 1;
      InsertBehind(q[..n], p, k);
      assert q[k..] == q[..n][k..] + [q[n]];
      assert q[..n][..k] == q[..k];
    }
  }

  lemma InsertAt(q: seq<RTPPacket>, p: RTPPacket, k: nat)
    requires StrictlyIncreasing(q) && k <= |q| && (k > 0 ==> q[k - 1].extseqnr < p.extseqnr)
    requires forall i :: k <= i < |q| ==> q[i].extseqnr > p.extseqnr
    ensures Insert(q, p) == q[..k] + [p] + q[k..] && !HasNumber(q, p.extseqnr)
  {
    InsertBehind(q, p, k);
    forall i | 0 <= i < k ensures q[i].extseqnr < p.extseqnr {
    }
  }

  lemma {:induction false} FromTheBack(q: seq<RTPPacket>, p: RTPPacket, k: nat)
    requires k < |q| && q[k].extseqnr == p.extseqnr
    requires forall i :: k < i < |q| ==> q[i].extseqnr > p.extseqnr
    ensures Insert(q, p) == q
    decreases |q|
  {
    var n := |q| - 1;
    if k < n {
      FromTheBack(q[..n], p, k);
    }
  }

  lemma InsertTaken(q: seq<RTPPacket>, p: RTPPacket, k: nat)
    requires StrictlyIncreasing(q) && k < |q| && q[k].extseqnr == p.extseqnr
    ensures Insert(q, p) == q && HasNumber(q, p.extseqnr)
  {
    FromTheBack(q, p, k);
    assert q[k] in q;
  }

  // ----- one packet after the other -----

  ghost predicate Bounded(q: seq<RTPPacket>, validated: bool) {
    StrictlyIncreasing(q) && (!validated ==> |q| <= MAX_PROBATION_PACKETS)
  }

  predicate Full(q: seq<RTPPacket>, validated: bool) {
    !validated && |q| == MAX_PROBATION_PACKETS
  }

  /** The queue a packet is put into: on probation a full one first gives up its lowest packet, even when
      the new packet then turns out to be a duplicate. */
  function Room(q: seq<RTPPacket>, validated: bool): seq<RTPPacket> {
    if Full(q, validated) then q[1..] else q
  }

  function Accept(q: seq<RTPPacket>, p: RTPPacket, validated: bool): seq<RTPPacket> {
    Insert(Room(q, validated), p)
  }

  lemma RoomKeeps(q: seq<RTPPacket>, validated: bool)
    requires Bounded(q, validated)
    ensures StrictlyIncreasing(Room(q, validated)) && (!validated ==> |Room(q, validated)| < MAX_PROBATION_PACKETS)
    ensures forall x :: x in Room(q, validated) <==> x in q && (Full(q, validated) ==> x != q[0])
  {
    if Full(q, validated) {
      forall x ensures x in q[1..] <==> x in q && x != q[0] {
        Tail(q, x);
      }
    }
  }

  /** One arrival, packet by packet: what was queued stays, but for the lowest of 32 on probation, and the packet
      joins it at its place unless another of that number stays. */
  lemma AcceptedAs(q: seq<RTPPacket>, p: RTPPacket, validated: bool)
    requires Bounded(q, validated)
    ensures var r := Accept(q, p, validated);
            var room := if !validated && |q| == 32 then q[1..] else q;
            && (forall i, j :: 0 <= i < j < |r| ==> r[i].extseqnr < r[j].extseqnr)
            && (forall x :: x in r <==> x in room || (x == p && forall y :: y in room ==> y.extseqnr != p.extseqnr))
  {
    RoomKeeps(q, validated);
    InsertKeeps(Room(q, validated), p);
  }

  /** Sorted and bounded stays so. What was there stays, but for the lowest packet of a full queue on
      probation, and the number that arrived is there. */
  lemma AcceptKeeps(q: seq<RTPPacket>, p: RTPPacket, validated: bool)
    requires Bounded(q, validated)
    ensures Bounded(Accept(q, p, validated), validated)
    ensures forall x :: x in Accept(q, p, validated) ==> x in q || x == p
    ensures forall x :: x in q && (Full(q, validated) ==> x != q[0]) ==> x in Accept(q, p, validated)
    ensures HasNumber(Accept(q, p, validated), p.extseqnr)
    ensures Full(q, validated) && q[0] != p ==> q[0] !in Accept(q, p, validated)
    ensures !HasNumber(q, p.extseqnr) ==>
              p in Accept(q, p, validated) && |Accept(q, p, validated)| == |q| + if Full(q, validated) then 0 else 1
  {
    hide StrictlyIncreasing, Insert;
    RoomKeeps(q, validated);
    InsertKeeps(Room(q, validated), p);
    var r := Insert(Room(q, validated), p);
    if HasNumber(Room(q, validated), p.extseqnr) {
      var x :| x in Room(q, validated) && x.extseqnr == p.extseqnr;
      assert x in r;
    } else {
      assert p in r;
    }
  }

  /** The queue after a run of arrivals, all before or all after the source is validated. */
  function ReceiveAll(q: seq<RTPPacket>, ps: seq<RTPPacket>, validated: bool): seq<RTPPacket>
    decreases |ps|
  {
    if ps == [] then q else ReceiveAll(Accept(q, ps[0], validated), ps[1..], validated)
  }

  /** The packets such a run deletes, in order. */
  function Evicted(q: seq<RTPPacket>, ps: seq<RTPPacket>, validated: bool): seq<RTPPacket>
    decreases |ps|
  {
    if ps == [] then []
    else (if Full(q, validated) then [q[0]] else []) + Evicted(Accept(q, ps[0], validated), ps[1..], validated)
  }

  /** Over any run of arrivals the queue stays sorted, and at most 32 long on probation; it holds nothing that
      did not arrive; every packet it held is still there or was evicted, and so is the number of every packet
      that arrived. A validated source loses nothing. */
  lemma {:induction false} ReceiveAllKeeps(q: seq<RTPPacket>, ps: seq<RTPPacket>, validated: bool)
    requires Bounded(q, validated)
    ensures var r, e := ReceiveAll(q, ps, validated), Evicted(q, ps, validated);
            && Bounded(r, validated)
            && (forall x :: x in r || x in e ==> x in q || x in ps)
            && (forall x :: x in q ==> x in r || x in e)
            && (forall x :: x in ps ==> HasNumber(r, x.extseqnr) || HasNumber(e, x.extseqnr))
            && (validated ==> e == [])
    decreases |ps|
  {
    hide Bounded, Accept;
    if ps != [] {
      var a, first := Accept(q, ps[0], validated), if Full(q, validated) then [q[0]] else [];
      AcceptKeeps(q, ps[0], validated);
      ReceiveAllKeeps(a, ps[1..], validated);
      var r, e := ReceiveAll(q, ps, validated), Evicted(a, ps[1..], validated);
      assert ps == [ps[0]] + ps[1..];
      forall x | x in ps ensures HasNumber(r, x.extseqnr) || HasNumber(first + e, x.extseqnr) {
        if x == ps[0] {
          var y :| y in a && y.extseqnr == x.extseqnr;
          assert y in r || y in first + e;
        } else if !HasNumber(r, x.extseqnr) {
          var y :| y in e && y.extseqnr == x.extseqnr;
          assert y in first + e;
        }
      }
    }
  }

  /** Packets whose numbers differ from one another and from those in the queue. */
  ghost predicate New(q: seq<RTPPacket>, ps: seq<RTPPacket>) {
    DistinctNumbers(ps) && forall p :: p in ps ==> !HasNumber(q, p.extseqnr)
  }

  lemma NewTail(q: seq<RTPPacket>, ps: seq<RTPPacket>, validated: bool)
    requires Bounded(q, validated) && New(q, ps) && ps != []
    ensures !HasNumber(q, ps[0].extseqnr) && ps[0] !in ps[1..] && New(Accept(q, ps[0], validated), ps[1..])
  {
    AcceptKeeps(q, ps[0], validated);
    var a, t := Accept(q, ps[0], validated), ps[1..];
    assert ps[0] in ps;
    forall p | p in t ensures !HasNumber(a, p.extseqnr) && p != ps[0] {
      var i :| 0 <= i < |t| && t[i] == p;
      assert ps[0].extseqnr != ps[i + 1].extseqnr && p in ps;
    }
  }

  function Excess(n: nat): nat {
    if n > MAX_PROBATION_PACKETS then n - MAX_PROBATION_PACKETS else 0
  }

  /** What exactly is lost of packets with distinct numbers: on probation all but 32 of them are evicted, and
      nothing else is; a packet is either evicted or in the queue. */
  lemma {:induction false} LostExactly(q: seq<RTPPacket>, ps: seq<RTPPacket>, validated: bool)
    requires Bounded(q, validated) && New(q, ps)
    ensures var r, e := ReceiveAll(q, ps, validated), Evicted(q, ps, validated);
            && (forall x :: x in r || x in e <==> x in q || x in ps)
            && (forall x :: x in e ==> x !in r)
            && |r| + |e| == |q| + |ps| && |e| == (if validated then 0 else Excess(|q| + |ps|))
    decreases |ps|
  {
    hide StrictlyIncreasing, New, Accept;
    if ps != [] {
      var a := Accept(q, ps[0], validated);
      AcceptKeeps(q, ps[0], validated);
      NewTail(q, ps, validated);
      LostExactly(a, ps[1..], validated);
      assert ps == [ps[0]] + ps[1..];
      if Full(q, validated) {
        assert q[0] in q;
        GoneForGood(q, ps, validated);
      }
    }
  }

  lemma GoneForGood(q: seq<RTPPacket>, ps: seq<RTPPacket>, validated: bool)
    requires Bounded(q, validated) && New(q, ps) && ps != [] && Full(q, validated)
    ensures q[0] !in ReceiveAll(Accept(q, ps[0], validated), ps[1..], validated)
  {
    hide StrictlyIncreasing, Accept;
    assert q[0] in q;
    forall p | p in ps ensures p != q[0] {
      assert !HasNumber(q, p.extseqnr);
    }
    assert ps[0] in ps;
    AcceptKeeps(q, ps[0], validated);
    ReceiveAllKeeps(Accept(q, ps[0], validated), ps[1..], validated);
  }

  ghost predicate Reorders(ps: seq<RTPPacket>, qs: seq<RTPPacket>) {
    |qs| == |ps| && DistinctNumbers(qs) && forall x :: x in qs <==> x in ps
  }

  lemma SameOrderAnyway(ps: seq<RTPPacket>, qs: seq<RTPPacket>, validated: bool)
    requires DistinctNumbers(ps) && Reorders(ps, qs) && (validated || |ps| <= MAX_PROBATION_PACKETS)
    ensures ReceiveAll([], qs, validated) == ReceiveAll([], ps, validated)
  {
    ReceiveAllKeeps([], ps, validated);
    ReceiveAllKeeps([], qs, validated);
    LostExactly([], ps, validated);
    LostExactly([], qs, validated);
    SortedUnique(ReceiveAll([], qs, validated), ReceiveAll([], ps, validated));
  }

  lemma FirstIsLowest(q: seq<RTPPacket>, m: RTPPacket)
    requires StrictlyIncreasing(q) && m in q && forall x :: x in q ==> m.extseqnr <= x.extseqnr
    ensures q[0] == m
  {
    var i :| 0 <= i < |q| && q[i] == m;
    assert q[0] in q;
  }

  lemma {:induction false} LowestEvicted(q: seq<RTPPacket>, ps: seq<RTPPacket>, m: RTPPacket)
    requires Bounded(q, false) && New(q, ps)
    requires forall x :: (x in q && x != m) || x in ps ==> m.extseqnr < x.extseqnr
    requires m in q ==> |q| + |ps| > MAX_PROBATION_PACKETS
    ensures m !in ReceiveAll(q, ps, false)
    decreases |ps|
  {
    if ps != [] {
      var a := Accept(q, ps[0], false);
      AcceptKeeps(q, ps[0], false);
      NewTail(q, ps, false);
      assert ps[0] in ps && forall x :: x in ps[1..] ==> x in ps;
      if m in q {
        FirstIsLowest(q, m);
      }
      hide StrictlyIncreasing, Accept, New;
      LowestEvicted(a, ps[1..], m);
    }
  }

  lemma {:induction false} ReceiveLast(q: seq<RTPPacket>, ps: seq<RTPPacket>, p: RTPPacket, validated: bool)
    ensures ReceiveAll(q, ps + [p], validated) == Accept(ReceiveAll(q, ps, validated), p, validated)
    decreases |ps|
  {
    if ps == [] {
      assert [] + [p] == [p] && [p][1..] == [];
    } else {
      assert (ps + [p])[1..] == ps[1..] + [p];
      ReceiveLast(Accept(q, ps[0], validated), ps[1..], p, validated);
    }
  }

  /** On probation the order of more than 32 packets matters: the lowest packet survives if it comes last and
      is lost if it comes first. */
  lemma LowestDecides(rest: seq<RTPPacket>, m: RTPPacket)
    requires DistinctNumbers(rest) && |rest| >= MAX_PROBATION_PACKETS
    requires forall x :: x in rest ==> m.extseqnr < x.extseqnr
    ensures m !in ReceiveAll([], [m] + rest, false) && m in ReceiveAll([], rest + [m], false)
  {
    hide DistinctNumbers, ReceiveAll, HasNumber;
    LowestLost(rest, m);
    LowestKept(rest, m);
  }

  lemma LowestLost(rest: seq<RTPPacket>, m: RTPPacket)
    requires DistinctNumbers(rest) && |rest| >= MAX_PROBATION_PACKETS
    requires forall x :: x in rest ==> m.extseqnr < x.extseqnr
    ensures m !in ReceiveAll([], [m] + rest, false)
  {
    hide DistinctNumbers;
    assert ([m] + rest)[1..] == rest;
    assert Accept([], m, false) == [m];
    LowestEvicted([m], rest, m);
  }

  lemma LowestKept(rest: seq<RTPPacket>, m: RTPPacket)
    requires forall x :: x in rest ==> m.extseqnr < x.extseqnr
    ensures m in ReceiveAll([], rest + [m], false)
  {
    hide ReceiveAll, Evicted, Accept;
    ReceiveLast([], rest, m, false);
    ReceiveAllKeeps([], rest, false);
    var r := ReceiveAll([], rest, false);
    assert !HasNumber(r, m.extseqnr);
    AcceptKeeps(r, m, false);
  }

  lemma {:induction false} LowestIndex(ps: seq<RTPPacket>) returns (k: nat)
    requires ps != []
    ensures k < |ps| && forall i :: 0 <= i < |ps| ==> ps[k].extseqnr <= ps[i].extseqnr
    decreases |ps|
  {
    k := 0;
    if |ps| > 1 {
      var j := LowestIndex(ps[1..]);
      forall i | 0 < i < |ps| ensures ps[j + 1].extseqnr <= ps[i].extseqnr {
        assert ps[i] == ps[1..][i - 1];
      }
      if ps[j + 1].extseqnr < ps[0].extseqnr {
        k := j + 1;
      }
    }
  }

  lemma MovedTo(ps: seq<RTPPacket>, k: nat)
    requires DistinctNumbers(ps) && k < |ps|
    ensures var m, rest := ps[k], ps[..k] + ps[k + 1..];
            Reorders(ps, [m] + rest) && Reorders(ps, rest + [m]) && DistinctNumbers(rest)
  {
    var m, rest := ps[k], ps[..k] + ps[k + 1..];
    assert ps == ps[..k] + [m] + ps[k + 1..];
    forall i, j | 0 <= i < j < |rest| ensures rest[i].extseqnr != rest[j].extseqnr {
      assert rest[i] == ps[if i < k then i else i + 1] && rest[j] == ps[if j < k then j else j + 1];
    }
    forall i | 0 <= i < |rest| ensures rest[i].extseqnr != m.extseqnr {
      assert rest[i] == ps[if i < k then i else i + 1];
    }
  }

  /** The lowest packet and the others, and two orders with it first and last. */
  lemma LowestOut(ps: seq<RTPPacket>) returns (m: RTPPacket, rest: seq<RTPPacket>)
    requires DistinctNumbers(ps) && ps != []
    ensures |rest| == |ps| - 1 && DistinctNumbers(rest) && forall x :: x in rest ==> m.extseqnr < x.extseqnr
    ensures Reorders(ps, [m] + rest) && Reorders(ps, rest + [m])
  {
    var k := LowestIndex(ps);
    m, rest := ps[k], ps[..k] + ps[k + 1..];
    MovedTo(ps, k);
    forall x | x in rest ensures m.extseqnr < x.extseqnr {
      var i :| 0 <= i < |rest| && rest[i] == x;
      assert x == ps[if i < k then i else i + 1];
    }
  }

  /** Arrival order does not matter for packets with distinct numbers if and only if the source is validated or
      there are at most 32 of them. */
  lemma ArrivalOrderIrrelevant(ps: seq<RTPPacket>, validated: bool)
    requires DistinctNumbers(ps)
    ensures (forall qs :: Reorders(ps, qs) ==> ReceiveAll([], qs, validated) == ReceiveAll([], ps, validated))
            <==> validated || |ps| <= MAX_PROBATION_PACKETS
  {
    if validated || |ps| <= MAX_PROBATION_PACKETS {
      forall qs | Reorders(ps, qs) ensures ReceiveAll([], qs, validated) == ReceiveAll([], ps, validated) {
        SameOrderAnyway(ps, qs, validated);
      }
    } else {
      var m, rest := LowestOut(ps);
      LowestDecides(rest, m);
    }
  }

  // ----- runs in the course of which the source is validated -----

  /** How many packets arrive before the first the statistics accept. */
  function OnTrial(accepts: seq<bool>): (k: nat)
    ensures k <= |accepts| && (k < |accepts| ==> accepts[k])
  {
    if accepts == [] || accepts[0] then 0 else 1 + OnTrial(accepts[1..])
  }

  /** The queue after a run; an accepted packet validates the source for itself and all that follow. */
  function Receive(q: seq<RTPPacket>, ps: seq<RTPPacket>, accepts: seq<bool>, validated: bool): seq<RTPPacket>
    requires |ps| == |accepts|
    decreases |ps|
  {
    if ps == [] then q
    else
      var now := validated || accepts[0];
      Receive(Accept(q, ps[0], now), ps[1..], accepts[1..], now)
  }

  /** The packets it deletes. */
  function Deleted(q: seq<RTPPacket>, ps: seq<RTPPacket>, accepts: seq<bool>, validated: bool): seq<RTPPacket>
    requires |ps| == |accepts|
    decreases |ps|
  {
    if ps == [] then []
    else
      var now := validated || accepts[0];
      (if Full(q, now) then [q[0]] else []) + Deleted(Accept(q, ps[0], now), ps[1..], accepts[1..], now)
  }

  lemma {:induction false} ReceiveValidated(q: seq<RTPPacket>, ps: seq<RTPPacket>, accepts: seq<bool>)
    requires |ps| == |accepts|
    ensures Receive(q, ps, accepts, true) == ReceiveAll(q, ps, true)
    ensures Deleted(q, ps, accepts, true) == []
    decreases |ps|
  {
    if ps != [] {
      ReceiveValidated(Accept(q, ps[0], true), ps[1..], accepts[1..]);
    }
  }

  /** Such a run is one on probation, up to the first accepted packet, and one of a validated source. */
  lemma {:induction false} ReceiveInTwo(q: seq<RTPPacket>, ps: seq<RTPPacket>, accepts: seq<bool>)
    requires |ps| == |accepts|
    ensures var k := OnTrial(accepts);
            && Receive(q, ps, accepts, false) == ReceiveAll(ReceiveAll(q, ps[..k], false), ps[k..], true)
            && Deleted(q, ps, accepts, false) == Evicted(q, ps[..k], false)
    decreases |ps|
  {
    hide Accept, Full;
    var k := OnTrial(accepts);
    if ps == [] {
    } else if accepts[0] {
      ReceiveValidated(Accept(q, ps[0], true), ps[1..], accepts[1..]);
      NeverFull(q);
      assert ps[..0] == [] && ps[0..] == ps;
      assert [] + Deleted(Accept(q, ps[0], true), ps[1..], accepts[1..], true) == [];
    } else {
      ReceiveInTwo(Accept(q, ps[0], false), ps[1..], accepts[1..]);
      assert ps[..k][0] == ps[0] && ps[..k][1..] == ps[1..][..k - 1] && ps[1..][k - 1..] == ps[k..];
    }
  }

  lemma NeverFull(q: seq<RTPPacket>)
    ensures !Full(q, true)
  {
  }

  lemma Parts(ps: seq<RTPPacket>, k: nat)
    requires DistinctNumbers(ps) && k <= |ps|
    ensures DistinctNumbers(ps[..k]) && DistinctNumbers(ps[k..])
    ensures forall x :: x in ps <==> x in ps[..k] || x in ps[k..]
    ensures forall x, y :: x in ps[..k] && y in ps[k..] ==> x.extseqnr != y.extseqnr
  {
    assert ps == ps[..k] + ps[k..];
    forall x, y | x in ps[..k] && y in ps[k..] ensures x.extseqnr != y.extseqnr {
      var i, j :| 0 <= i < k && k <= j < |ps| && ps[i] == x && ps[j] == y;
    }
    forall i, j | 0 <= i < j < |ps[k..]| ensures ps[k..][i].extseqnr != ps[k..][j].extseqnr {
      assert ps[k..][i] == ps[k + i] && ps[k..][j] == ps[k + j];
    }
  }

  lemma NewParts(q: seq<RTPPacket>, ps: seq<RTPPacket>, k: nat)
    requires Bounded(q, false) && New(q, ps) && k <= |ps|
    ensures New(q, ps[..k]) && Bounded(ReceiveAll(q, ps[..k], false), true)
    ensures New(ReceiveAll(q, ps[..k], false), ps[k..])
    ensures forall x :: x in ps <==> x in ps[..k] || x in ps[k..]
  {
    hide StrictlyIncreasing, ReceiveAll, Evicted, DistinctNumbers;
    var r := ReceiveAll(q, ps[..k], false);
    Parts(ps, k);
    ReceiveAllKeeps(q, ps[..k], false);
    forall p | p in ps[k..] ensures !HasNumber(r, p.extseqnr) {
      assert !HasNumber(q, p.extseqnr);
    }
  }

  /** What exactly such a run loses of packets with distinct numbers: all beyond 32 of those that come before the
      first accepted one, and nothing else. */
  lemma LostBeforeAccepted(q: seq<RTPPacket>, ps: seq<RTPPacket>, accepts: seq<bool>)
    requires Bounded(q, false) && New(q, ps) && |ps| == |accepts|
    ensures var r, e := Receive(q, ps, accepts, false), Deleted(q, ps, accepts, false);
            && StrictlyIncreasing(r)
            && (forall x :: x in r || x in e <==> x in q || x in ps)
            && (forall x :: x in e ==> x !in r && x !in ps[OnTrial(accepts)..])
            && |r| + |e| == |q| + |ps| && |e| == Excess(|q| + OnTrial(accepts))
  {
    hide New, Accept, ReceiveAll, Evicted, Receive, Deleted;
    var k := OnTrial(accepts);
    NewParts(q, ps, k);
    var mid := ReceiveAll(q, ps[..k], false);
    ReceiveInTwo(q, ps, accepts);
    LostExactly(q, ps[..k], false);
    LostExactly(mid, ps[k..], true);
    ReceiveAllKeeps(mid, ps[k..], true);
    LaterNotLost(q, ps, k);
  }

  lemma LaterNotLost(q: seq<RTPPacket>, ps: seq<RTPPacket>, k: nat)
    requires Bounded(q, false) && New(q, ps) && k <= |ps|
    ensures forall x :: x in Evicted(q, ps[..k], false) ==> x !in ps[k..]
  {
    ReceiveAllKeeps(q, ps[..k], false);
    forall x | x in ps[k..] ensures x !in q && x !in ps[..k] {
      var i :| k <= i < |ps| && ps[i] == x;
      assert x in ps;
    }
  }

  lemma EarlyOrderAnyway(ps: seq<RTPPacket>, qs: seq<RTPPacket>, accepts: seq<bool>)
    requires DistinctNumbers(ps) && Reorders(ps, qs) && |ps| == |accepts| && OnTrial(accepts) <= MAX_PROBATION_PACKETS
    ensures Receive([], qs, accepts, false) == Receive([], ps, accepts, false)
  {
    hide StrictlyIncreasing, HasNumber, Receive, Deleted, OnTrial, DistinctNumbers;
    AllKept(ps, accepts);
    AllKept(qs, accepts);
    SortedUnique(Receive([], qs, accepts, false), Receive([], ps, accepts, false));
  }

  lemma AllKept(ps: seq<RTPPacket>, accepts: seq<bool>)
    requires DistinctNumbers(ps) && |ps| == |accepts| && OnTrial(accepts) <= MAX_PROBATION_PACKETS
    ensures var r := Receive([], ps, accepts, false);
            StrictlyIncreasing(r) && forall x :: x in r <==> x in ps
  {
    hide Receive, Deleted, OnTrial;
    LostBeforeAccepted([], ps, accepts);
    assert Deleted([], ps, accepts, false) == [];
  }

  /** With more than 32 packets before the first accepted one the lowest of all is lost if it comes first and
      kept if it comes last. */
  lemma LowestDecidesEarly(rest: seq<RTPPacket>, m: RTPPacket, accepts: seq<bool>)
    requires DistinctNumbers(rest) && forall x :: x in rest ==> m.extseqnr < x.extseqnr
    requires |accepts| == |rest| + 1 && OnTrial(accepts) > MAX_PROBATION_PACKETS
    ensures m !in Receive([], [m] + rest, accepts, false) && m in Receive([], rest + [m], accepts, false)
  {
    hide Accept, Full;
    var k := OnTrial(accepts);
    var a, b := [m] + rest, rest + [m];
    ReceiveInTwo([], a, accepts);
    ReceiveInTwo([], b, accepts);
    Prefixes(rest, m, k);
    LowestDecides(rest[..k - 1], m);
    var mid := ReceiveAll([], a[..k], false);
    ReceiveAllKeeps([], a[..k], false);
    ReceiveAllKeeps(mid, a[k..], true);
    if k <= |rest| {
      LastIsKept(rest, m, k);
    } else {
      assert rest[..k - 1] == rest && b[..k] == b && b[k..] == [];
    }
  }

  lemma Prefixes(rest: seq<RTPPacket>, m: RTPPacket, k: nat)
    requires DistinctNumbers(rest) && (forall x :: x in rest ==> m.extseqnr < x.extseqnr) && 0 < k <= |rest| + 1
    ensures ([m] + rest)[..k] == [m] + rest[..k - 1] && ([m] + rest)[k..] == rest[k - 1..]
    ensures DistinctNumbers(rest[..k - 1]) && (forall x :: x in rest[..k - 1] ==> m.extseqnr < x.extseqnr)
    ensures m !in rest[k - 1..]
  {
    assert forall i :: k - 1 <= i < |rest| ==> rest[i] in rest;
  }

  lemma LastIsKept(rest: seq<RTPPacket>, m: RTPPacket, k: nat)
    requires k <= |rest| && forall x :: x in rest ==> m.extseqnr < x.extseqnr
    ensures m in ReceiveAll(ReceiveAll([], (rest + [m])[..k], false), (rest + [m])[k..], true)
  {
    hide Accept;
    var b := rest + [m];
    assert b[..k] == rest[..k] && b[k..] == rest[k..] + [m];
    var mid := ReceiveAll([], rest[..k], false);
    ReceiveAllKeeps([], rest[..k], false);
    ReceiveAllKeeps(mid, rest[k..], true);
    ReceiveLast(mid, rest[k..], m, true);
    var r := ReceiveAll(mid, rest[k..], true);
    assert !HasNumber(r, m.extseqnr);
    AcceptKeeps(r, m, true);
  }

  /** Whichever packets the first accepted one follows, arrival order does not matter for packets with distinct
      numbers if and only if at most 32 come before it. */
  lemma OrderIrrelevantIffEarly(ps: seq<RTPPacket>, accepts: seq<bool>)
    requires DistinctNumbers(ps) && |ps| == |accepts|
    ensures (forall qs :: Reorders(ps, qs) ==> Receive([], qs, accepts, false) == Receive([], ps, accepts, false))
            <==> OnTrial(accepts) <= MAX_PROBATION_PACKETS
  {
    hide Receive;
    if OnTrial(accepts) <= MAX_PROBATION_PACKETS {
      forall qs | Reorders(ps, qs) ensures Receive([], qs, accepts, false) == Receive([], ps, accepts, false) {
        EarlyOrderAnyway(ps, qs, accepts);
      }
    } else {
      var m, rest := LowestOut(ps);
      LowestDecidesEarly(rest, m, accepts);
    }
  }

  /** A packet whose number is taken leaves the queue as it is if and only if the source is validated, the queue
      is not full, or the packet is the very one that is evicted to make room. */
  lemma DuplicateHarmless(q: seq<RTPPacket>, p: RTPPacket, validated: bool)
    requires Bounded(q, validated) && HasNumber(q, p.extseqnr)
    ensures Accept(q, p, validated) == q <==> !Full(q, validated) || q[0] == p
  {
    var y :| y in q && y.extseqnr == p.extseqnr;
    var k :| 0 <= k < |q| && q[k] == y;
    if !Full(q, validated) {
      InsertTaken(q, p, k);
    } else if k == 0 {
      InsertAtFront(q, p);
      assert q == [q[0]] + q[1..];
    } else {
      InsertTaken(q[1..], p, k - 1);
    }
  }

  lemma InsertAtFront(q: seq<RTPPacket>, p: RTPPacket)
    requires StrictlyIncreasing(q) && q != [] && q[0].extseqnr == p.extseqnr
    ensures Insert(q[1..], p) == [p] + q[1..]
  {
    forall i | 0 <= i < |q| - 1 ensures q[1..][i].extseqnr > p.extseqnr {
      assert q[0].extseqnr < q[i + 1].extseqnr;
    }
    InsertAt(q[1..], p, 0);
    assert q[1..][..0] == [] && q[1..][0..] == q[1..];
    assert [] + [p] == [p];
  }

  /** So any other duplicate arriving at a full queue on probation costs the source its oldest packet. */
  lemma DuplicateCostsOldest(q: seq<RTPPacket>, p: RTPPacket)
    requires Bounded(q, false) && Full(q, false) && HasNumber(q, p.extseqnr) && q[0] != p
    ensures q[0] !in Accept(q, p, false)
  {
    AcceptKeeps(q, p, false);
  }

  class RTPInternalSourceData {
    const probationtype: ProbationType
    const ownssrc: bool
    var packetlist: seq<RTPPacket>
    var validated: bool
    var issender: bool

    constructor (probationtype: ProbationType, ownssrc: bool)
      ensures Valid() && packetlist == [] && !validated && !issender
      ensures this.probationtype == probationtype && this.ownssrc == ownssrc
    {
      this.probationtype, this.ownssrc := probationtype, ownssrc;
      packetlist, validated, issender := [], false, false;
    }

    ghost predicate Valid()
      reads this
    {
      Bounded(packetlist, validated)
    }

    /** The statistics have judged the packet; what they accept validates the source, and what is only on
        probation is let through where packets on probation are stored. */
    method ProcessRTPPacket(rtppack: RTPPacket, accept: bool, onprobation: bool, ispackethandled: bool)
      returns (stored: bool)
      requires Valid()
      modifies this
      ensures Valid()
      ensures validated == (old(validated) || accept)
      ensures var letin := accept || (onprobation && probationtype == ProbationStore);
              && issender == (old(issender) || (letin && validated && !ownssrc))
              && packetlist == (if letin && !ispackethandled then Accept(old(packetlist), rtppack, validated)
                                else old(packetlist))
      ensures var letin := accept || (onprobation && probationtype == ProbationStore);
              var room := if !validated && |old(packetlist)| == 32 then old(packetlist)[1..] else old(packetlist);
              stored <==> letin && (ispackethandled || forall x :: x in room ==> x.extseqnr != rtppack.extseqnr)
    {
      stored := false;
      match probationtype {
        case ProbationStore =>
          if !(onprobation || accept) {
            return;
          }
          if accept {
            validated := true;
          }
        case _ =>
          if !accept {
            return;
          }
          validated := true;
      }
      if validated && !ownssrc {
        issender := true;
      }
      if ispackethandled {
        stored := true;
        return;
      }
      if packetlist == [] {
        stored := true;
        packetlist := [rtppack];
        return;
      }
      if !validated {
        if |packetlist| == MAX_PROBATION_PACKETS {
          packetlist := packetlist[1..];
        }
      }
      stored := Place(rtppack);
    }

    /** The search for the place, from the back of the list. */
    method Place(rtppack: RTPPacket) returns (stored: bool)
      requires StrictlyIncreasing(packetlist) && packetlist != []
      modifies `packetlist
      ensures packetlist == Insert(old(packetlist), rtppack) && StrictlyIncreasing(packetlist)
      ensures stored <==> !HasNumber(old(packetlist), rtppack.extseqnr)
      ensures |packetlist| == |old(packetlist)| + if stored then 1 else 0
    {
      ghost var q := packetlist;
      InsertKeeps(q, rtppack);
      stored := false;
      var done := false;
      var newseqnr := rtppack.extseqnr;
      var it := |packetlist| - 1;
      while !done
        invariant !done ==> 0 <= it < |q| && packetlist == q && !stored
        invariant !done ==> forall i :: it < i < |q| ==> q[i].extseqnr > newseqnr
        invariant done ==> packetlist == Insert(q, rtppack) && (stored <==> !HasNumber(q, newseqnr))
        decreases if done then 0 else 1, it
      {
        var seqnr := packetlist[it].extseqnr;
        if seqnr > newseqnr {
          if it != 0 {
            it := it - 1;
          } else {
            InsertAt(q, rtppack, 0);
            stored := true;
            done := true;
            packetlist := [rtppack] + packetlist;
          }
        } else if seqnr < newseqnr {
          it := it + 1;
          InsertAt(q, rtppack, it);
          packetlist := packetlist[..it] + [rtppack] + packetlist[it..];
          done := true;
          stored := true;
        } else {
          InsertTaken(q, rtppack, it);
          done := true;
        }
      }
    }

    /** An RTCP item that validates the source ends the bound for good. */
    method Validate()
      requires Valid()
      modifies `validated
      ensures Valid() && validated
    {
      validated := true;
    }

    method GetNextPacket() returns (p: Option<RTPPacket>)
      requires Valid()
      modifies `packetlist
      ensures Valid()
      ensures p == if !validated || old(packetlist) == [] then None else Some(old(packetlist)[0])
      ensures p.Some? ==> packetlist == old(packetlist)[1..]
      ensures p.Some? ==> forall x :: x in packetlist ==> x.extseqnr > p.value.extseqnr
      ensures p.None? ==> packetlist == old(packetlist)
    {
      if !validated {
        return None;
      }
      if packetlist == [] {
        return None;
      }
      p := Some(packetlist[0]);
      packetlist := packetlist[1..];
    }
  }
}
