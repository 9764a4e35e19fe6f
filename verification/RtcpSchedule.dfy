/** The timer rules of the RTCP scheduler (rtcpscheduler.cpp, section 6.3 of RFC 3550) as functions on its
    state, with times and doubles as reals. Clock readings, random values and the counts kept by the source
    table are inputs of each call. */
module RtcpSchedule {
  import opened Bytes

  const BYE: nat := 203

  datatype Params = Params(
    bandwidth: real,
    senderfraction: real,
    mininterval: real,
    usehalfatstartup: bool,
    immediatebye: bool
  )

  /** What the setters allow, less a zero bandwidth and the fractions 0 and 1, which divide by zero. */
  predicate Usable(p: Params) {
    p.bandwidth > 0.0 && 0.0 < p.senderfraction < 1.0 && p.mininterval >= 1.0
  }

  /** Active members, senders among them, and whether the own source is one. */
  datatype Sources = Sources(members: nat, senders: nat, aresender: bool)

  datatype State = State(
    avgrtcppacksize: nat,
    hassentrtcp: bool,
    firstcall: bool,
    next: real,
    prev: real,
    pmembers: nat,
    byescheduled: bool,
    byemembers: nat,
    avgbyepacketsize: nat,
    sendbyenow: bool
  )

  type Random = r: real | 0.0 <= r <= 1.0

  function Average(avg: nat, packsize: nat): (a: nat)
    ensures Min(avg, packsize) <= a
    ensures a <= avg || a <= packsize
  {
    (packsize + 15 * avg) / 16
  }

  function Max(a: real, b: real): (m: real)
    ensures m >= a && m >= b && (m == a || m == b)
  {
    if a > b then a else b
  }

  function MinInterval(p: Params, half: bool): real {
    if half && p.usehalfatstartup then p.mininterval / 2.0 else p.mininterval
  }

  /** The C of section 6.3.1: seconds of bandwidth one packet takes. */
  function C(avg: nat, bandwidth: real): real
    requires bandwidth > 0.0
  {
    avg as real / bandwidth
  }

  function Times(n: int, c: real): real {
    n as real * c
  }

  function SenderBandwidth(p: Params): (b: real)
    requires Usable(p)
    ensures b > 0.0
  {
    ProductPositive(p.senderfraction, p.bandwidth);
    p.senderfraction * p.bandwidth
  }

  function ReceiverBandwidth(p: Params): (b: real)
    requires Usable(p)
    ensures b > 0.0
  {
    ProductPositive(1.0 - p.senderfraction, p.bandwidth);
    (1.0 - p.senderfraction) * p.bandwidth
  }

  lemma ProductPositive(a: real, b: real)
    requires a > 0.0 && b > 0.0
    ensures a * b > 0.0
  {
  }

  /** Senders get their own share of the bandwidth while they are few. */
  function Load(p: Params, avg: nat, src: Sources, sender: bool): real
    requires Usable(p)
  {
    var total := if src.members == 0 then 1 else src.members;
    if src.senders as real / total as real <= p.senderfraction then
      if sender then Times(src.senders, C(avg, SenderBandwidth(p)))
      else Times(total - src.senders, C(avg, ReceiverBandwidth(p)))
    else Times(total, C(avg, p.bandwidth))
  }

  function ByeLoad(p: Params, avg: nat, n: nat): real
    requires Usable(p)
  {
    Times(n, C(avg, ReceiverBandwidth(p)))
  }

  /** The interval without randomness. */
  function DeterministicInterval(p: Params, s: State, src: Sources, sender: bool): (td: real)
    requires Usable(p)
    ensures td >= MinInterval(p, !s.hassentrtcp)
  {
    Max(MinInterval(p, !s.hassentrtcp), Load(p, s.avgrtcppacksize, src, sender))
  }

  function Randomized(td: real, rnd: Random): real {
    td * (rnd + 0.5) / 1.21828
  }

  function TransmissionInterval(p: Params, s: State, src: Sources, rnd: Random): real
    requires Usable(p)
  {
    Randomized(DeterministicInterval(p, s, src, src.aresender), rnd)
  }

  function ByeDeterministic(p: Params, s: State): (td: real)
    requires Usable(p)
    ensures td >= MinInterval(p, true)
  {
    Max(MinInterval(p, true), ByeLoad(p, s.avgbyepacketsize, s.byemembers))
  }

  function ByeInterval(p: Params, s: State, rnd: Random): real
    requires Usable(p)
  {
    if !s.byescheduled || s.sendbyenow then 0.0 else Randomized(ByeDeterministic(p, s), rnd)
  }

  // ----- the calls -----

  function ScheduleNext(p: Params, s: State, src: Sources, t: real, rnd: Random): State
    requires Usable(p)
  {
    s.(next := t + TransmissionInterval(p, s, src, rnd))
  }

  function FirstCall(p: Params, s: State, src: Sources, t0: real, t1: real, rnd: Random): State
    requires Usable(p)
  {
    ScheduleNext(p, s.(firstcall := false, prev := t0, pmembers := src.members), src, t1, rnd)
  }

  /** When the expired timer is reconsidered. */
  function CheckTime(p: Params, s: State, src: Sources, rnd: Random): real
    requires Usable(p)
  {
    (if s.byescheduled then ByeInterval(p, s, rnd) else TransmissionInterval(p, s, src, rnd)) + s.prev
  }

  function IsTimeResult(p: Params, s: State, src: Sources, t0: real, r0: Random): bool
    requires Usable(p)
  {
    !s.firstcall && t0 >= s.next && CheckTime(p, s, src, r0) <= t0
  }

  function IsTimeState(p: Params, s: State, src: Sources, t0: real, t1: real, r0: Random, r1: Random): State
    requires Usable(p)
  {
    if s.firstcall then FirstCall(p, s, src, t0, t1, r1)
    else if t0 < s.next then s
    else if IsTimeResult(p, s, src, t0, r0) then
      ScheduleNext(p, s.(byescheduled := false, prev := t0, pmembers := src.members), src, t1, r1)
    else s.(next := CheckTime(p, s, src, r0), pmembers := src.members)
  }

  function DelayState(p: Params, s: State, src: Sources, t0: real, t1: real, rnd: Random): State
    requires Usable(p)
  {
    if s.firstcall then FirstCall(p, s, src, t0, t1, rnd) else s
  }

  function Positive(x: real): real {
    if x > 0.0 then x else 0.0
  }

  function Share(members: nat, was: nat, x: real): real
    requires was > 0
  {
    members as real / was as real * x
  }

  /** Timer and previous time both move towards the present, by the share of members that left. */
  function ReverseReconsideration(s: State, members: nat, tc: real): State {
    if s.firstcall then s
    else
      var was := if s.pmembers == 0 then 1 else s.pmembers;
      s.(next := tc + Share(members, was, Positive(s.next - tc)),
         prev := tc - Share(members, was, Positive(tc - s.prev)),
         pmembers := members)
  }

  function MemberDecrease(s: State, members: nat, tc: real): State {
    if members < s.pmembers then ReverseReconsideration(s, members, tc) else s
  }

  function Incoming(s: State, isbye: bool, packsize: nat): State {
    if !isbye then s.(avgrtcppacksize := Average(s.avgrtcppacksize, packsize))
    else if s.byescheduled then
      s.(avgbyepacketsize := Average(s.avgbyepacketsize, packsize), byemembers := s.byemembers + 1)
    else s
  }

  function Outgoing(s: State, isbye: bool, packsize: nat): State {
    (if isbye then s else s.(avgrtcppacksize := Average(s.avgrtcppacksize, packsize))).(hassentrtcp := true)
  }

  function ScheduleBye(p: Params, s: State, src: Sources, packsize: nat, t: real, rnd: Random): State
    requires Usable(p)
  {
    if s.byescheduled then s
    else
      var b := s.(firstcall := false,
                  pmembers := if s.firstcall then src.members else s.pmembers,
                  byescheduled := true, avgbyepacketsize := packsize, byemembers := 1,
                  sendbyenow := p.immediatebye && src.members < 50, prev := t);
      b.(next := t + ByeInterval(p, b, rnd))
  }

  // ----- what the intervals promise -----

  lemma MulReal(a: real, b: real, c: real)
    requires a <= b && c >= 0.0
    ensures a * c <= b * c
  {
  }

  lemma RandomizedBounds(td: real, low: real, rnd: Random)
    requires 0.0 < low <= td
    ensures low * 0.5 / 1.21828 <= Randomized(td, rnd) <= td * 1.5 / 1.21828
    ensures Randomized(td, rnd) > 0.0
  {
    MulReal(low, td, rnd + 0.5);
    MulReal(0.5, rnd + 0.5, low);
    MulReal(rnd + 0.5, 1.5, td);
    assert low * 0.5 <= td * (rnd + 0.5) <= td * 1.5;
  }

  /** Bytes per second of n members that each send avg bytes every td seconds. */
  function Rate(n: nat, avg: nat, td: real): real
    requires td > 0.0
  {
    n as real * avg as real / td
  }

  lemma TimesPerBandwidth(n: nat, avg: nat, b: real, td: real)
    requires b > 0.0 && td >= Times(n, C(avg, b)) && td > 0.0
    ensures Rate(n, avg, td) <= b
  {
    var a, m := avg as real, n as real;
    assert a / b * b == a;
    MulReal(m * (a / b), td, b);
    assert m * (a / b) * b == m * (a / b * b);
    assert m * a <= td * b;
    DivideBy(m * a, td, b);
  }

  lemma CancelReal(q: real, b: real, td: real)
    requires td > 0.0 && q * td <= b * td
    ensures q <= b
  {
  }

  lemma DivideBy(x: real, td: real, b: real)
    requires td > 0.0 && x <= td * b
    ensures x / td <= b
  {
    assert x / td * td == x;
    CancelReal(x / td, b, td);
  }

  predicate FewSenders(p: Params, src: Sources)
    requires src.members > 0
  {
    src.senders as real / src.members as real <= p.senderfraction
  }

  lemma IntervalCovers(p: Params, s: State, src: Sources, sender: bool)
    requires Usable(p)
    ensures DeterministicInterval(p, s, src, sender) >= Load(p, s.avgrtcppacksize, src, sender)
    ensures DeterministicInterval(p, s, src, sender) > 0.0
  {
    hide Load;
  }

  lemma LoadOfFew(p: Params, avg: nat, src: Sources)
    requires Usable(p) && src.members > 0 && FewSenders(p, src)
    ensures Load(p, avg, src, true) == Times(src.senders, C(avg, SenderBandwidth(p)))
    ensures Load(p, avg, src, false) == Times(src.members - src.senders, C(avg, ReceiverBandwidth(p)))
  {
    hide Times, C, SenderBandwidth, ReceiverBandwidth;
  }

  lemma LoadOfMany(p: Params, avg: nat, src: Sources, sender: bool)
    requires Usable(p) && src.members > 0 && !FewSenders(p, src)
    ensures Load(p, avg, src, sender) == Times(src.members, C(avg, p.bandwidth))
  {
    hide Times, C, SenderBandwidth, ReceiverBandwidth;
  }

  lemma SharesAdd(p: Params)
    requires Usable(p)
    ensures SenderBandwidth(p) + ReceiverBandwidth(p) == p.bandwidth
  {
  }

  /** What the interval is for: when every sender and every other member sends a packet of average size once
      per interval, senders and others keep to their shares of the RTCP bandwidth while senders are few, and
      all together keep to the whole of it. */
  lemma BandwidthKept(p: Params, s: State, src: Sources)
    requires Usable(p) && src.senders <= src.members && src.members > 0
    ensures var ts, tr := DeterministicInterval(p, s, src, true), DeterministicInterval(p, s, src, false);
            && ts > 0.0 && tr > 0.0
            && var rs := Rate(src.senders, s.avgrtcppacksize, ts);
            && var rr := Rate(src.members - src.senders, s.avgrtcppacksize, tr);
            && rs + rr <= p.bandwidth
            && (FewSenders(p, src) ==> rs <= SenderBandwidth(p) && rr <= ReceiverBandwidth(p))
  {
    hide Times, C, Load, DeterministicInterval, Rate, FewSenders, SenderBandwidth, ReceiverBandwidth;
    var n, m, a := src.senders, src.members - src.senders, s.avgrtcppacksize;
    var ts, tr := DeterministicInterval(p, s, src, true), DeterministicInterval(p, s, src, false);
    IntervalCovers(p, s, src, true);
    IntervalCovers(p, s, src, false);
    if FewSenders(p, src) {
      LoadOfFew(p, a, src);
      TimesPerBandwidth(n, a, SenderBandwidth(p), ts);
      TimesPerBandwidth(m, a, ReceiverBandwidth(p), tr);
      SharesAdd(p);
    } else {
      LoadOfMany(p, a, src, true);
      LoadOfMany(p, a, src, false);
      SameLoad(p, s, src);
      TimesPerBandwidth(src.members, a, p.bandwidth, ts);
      RatesAdd(n, m, a, ts);
    }
  }

  lemma SameLoad(p: Params, s: State, src: Sources)
    requires Usable(p) && Load(p, s.avgrtcppacksize, src, true) == Load(p, s.avgrtcppacksize, src, false)
    ensures DeterministicInterval(p, s, src, true) == DeterministicInterval(p, s, src, false)
  {
    hide Load;
  }

  lemma RatesAdd(n: nat, m: nat, a: nat, td: real)
    requires td > 0.0
    ensures Rate(n, a, td) + Rate(m, a, td) == Rate(n + m, a, td)
  {
    var x, y := n as real * a as real, m as real * a as real;
    assert (n + m) as real * a as real == x + y;
    assert x / td + y / td == (x + y) / td;
  }

  lemma TimesExact(n: nat, avg: nat, b: real, td: real)
    requires b > 0.0 && td == Times(n, C(avg, b)) && td > 0.0
    ensures Rate(n, avg, td) == b
  {
    var a, m := avg as real, n as real;
    assert a / b * b == a;
    assert m * (a / b) * b == m * (a / b * b);
    assert m * a == td * b;
    assert m * a / td == b;
  }

  lemma IntervalIsEither(p: Params, s: State, src: Sources, sender: bool)
    requires Usable(p)
    ensures var least := if !s.hassentrtcp && p.usehalfatstartup then p.mininterval / 2.0 else p.mininterval;
            var td := DeterministicInterval(p, s, src, sender);
            td >= least && (td > least ==> td == Load(p, s.avgrtcppacksize, src, sender))
  {
    hide Load;
  }

  /** The interval is no longer than it has to be: it is the minimum, halved at startup where half intervals are
      in use, or it uses the bandwidth up. While senders are few each side uses its own share, otherwise all
      together use the whole. */
  lemma BandwidthUsed(p: Params, s: State, src: Sources)
    requires Usable(p) && src.senders <= src.members && src.members > 0
    ensures var least := if !s.hassentrtcp && p.usehalfatstartup then p.mininterval / 2.0 else p.mininterval;
            var ts, tr := DeterministicInterval(p, s, src, true), DeterministicInterval(p, s, src, false);
            && ts >= least && tr >= least && least > 0.0
            && var rs := Rate(src.senders, s.avgrtcppacksize, ts);
            && var rr := Rate(src.members - src.senders, s.avgrtcppacksize, tr);
            && if src.senders as real / src.members as real <= p.senderfraction then
                 && (ts > least ==> rs == p.senderfraction * p.bandwidth)
                 && (tr > least ==> rr == (1.0 - p.senderfraction) * p.bandwidth)
               else
                 ts == tr && (ts > least ==> rs + rr == p.bandwidth)
  {
    hide Times, C, Load, DeterministicInterval, Rate;
    var n, m, a := src.senders, src.members - src.senders, s.avgrtcppacksize;
    var ts, tr := DeterministicInterval(p, s, src, true), DeterministicInterval(p, s, src, false);
    var least := if !s.hassentrtcp && p.usehalfatstartup then p.mininterval / 2.0 else p.mininterval;
    IntervalIsEither(p, s, src, true);
    IntervalIsEither(p, s, src, false);
    if FewSenders(p, src) {
      LoadOfFew(p, a, src);
      if ts > least {
        TimesExact(n, a, SenderBandwidth(p), ts);
      }
      if tr > least {
        TimesExact(m, a, ReceiverBandwidth(p), tr);
      }
    } else {
      LoadOfMany(p, a, src, true);
      LoadOfMany(p, a, src, false);
      SameLoad(p, s, src);
      RatesAdd(n, m, a, ts);
      if ts > least {
        TimesExact(src.members, a, p.bandwidth, ts);
      }
    }
  }

  /** No member at all counts as one. */
  lemma NobodyCountsAsOne(p: Params, s: State, senders: nat, sender: bool)
    requires Usable(p)
    ensures DeterministicInterval(p, s, Sources(0, senders, sender), sender)
            == DeterministicInterval(p, s, Sources(1, senders, sender), sender)
  {
  }

  /** The BYE back-off: the minimum, halved where half intervals are in use, or what the members leaving need
      of the receivers' bandwidth. */
  lemma ByeBandwidthUsed(p: Params, s: State)
    requires Usable(p)
    ensures var least := if p.usehalfatstartup then p.mininterval / 2.0 else p.mininterval;
            var td := ByeDeterministic(p, s);
            && td >= least > 0.0
            && Rate(s.byemembers, s.avgbyepacketsize, td) <= (1.0 - p.senderfraction) * p.bandwidth
            && (td > least ==> Rate(s.byemembers, s.avgbyepacketsize, td) == (1.0 - p.senderfraction) * p.bandwidth)
  {
    hide Times, C, Rate;
    var td := ByeDeterministic(p, s);
    TimesPerBandwidth(s.byemembers, s.avgbyepacketsize, ReceiverBandwidth(p), td);
    if td > MinInterval(p, true) {
      TimesExact(s.byemembers, s.avgbyepacketsize, ReceiverBandwidth(p), td);
    }
  }

  /** The random factor runs evenly from one half to three halves, over the compensation of section 6.3.1. */
  lemma RandomizedEvenly(td: real, rnd: Random)
    ensures Randomized(td, 0.0) == td * 0.5 / 1.21828 && Randomized(td, 1.0) == td * 1.5 / 1.21828
    ensures Randomized(td, rnd) == Randomized(td, 0.0) + rnd * (Randomized(td, 1.0) - Randomized(td, 0.0))
  {
    var k := td / 1.21828;
    assert td * (rnd + 0.5) / 1.21828 == k * (rnd + 0.5);
    assert td * 0.5 / 1.21828 == k * 0.5 && td * 1.5 / 1.21828 == k * 1.5;
    assert k * (rnd + 0.5) == k * rnd + k * 0.5;
  }

  /** The least distance IsTime keeps from the previous time it goes by. */
  function Gap(p: Params, s: State): real {
    if s.byescheduled && s.sendbyenow then 0.0
    else MinInterval(p, !s.hassentrtcp || s.byescheduled) * 0.5 / 1.21828
  }

  lemma ByeIntervalLow(p: Params, s: State, rnd: Random)
    requires Usable(p) && s.byescheduled && !s.sendbyenow
    ensures ByeInterval(p, s, rnd) >= MinInterval(p, true) * 0.5 / 1.21828
  {
    hide ByeDeterministic, Randomized;
    RandomizedBounds(ByeDeterministic(p, s), MinInterval(p, true), rnd);
  }

  lemma ByeNow(p: Params, s: State, rnd: Random)
    requires Usable(p) && s.sendbyenow
    ensures ByeInterval(p, s, rnd) == 0.0
  {
  }

  lemma GapKept(p: Params, s: State, src: Sources, rnd: Random)
    requires Usable(p)
    ensures CheckTime(p, s, src, rnd) >= s.prev + Gap(p, s)
  {
    hide DeterministicInterval, ByeInterval, Randomized;
    if s.byescheduled {
      if s.sendbyenow {
        ByeNow(p, s, rnd);
      } else {
        ByeIntervalLow(p, s, rnd);
      }
    } else {
      RandomizedBounds(DeterministicInterval(p, s, src, src.aresender), MinInterval(p, !s.hassentrtcp), rnd);
    }
  }

  /** A timer that has expired long enough ago always fires, whatever the random values. */
  lemma DueFires(p: Params, s: State, src: Sources, t: real, rnd: Random)
    requires Usable(p) && !s.firstcall && !s.byescheduled && t >= s.next
    requires t - s.prev >= DeterministicInterval(p, s, src, src.aresender) * 1.5 / 1.21828
    ensures IsTimeResult(p, s, src, t, rnd)
  {
    hide DeterministicInterval;
    RandomizedBounds(DeterministicInterval(p, s, src, src.aresender), MinInterval(p, !s.hassentrtcp), rnd);
  }

  /** After any call the timer is set to a later moment: calling again right away returns false. */
  lemma NotTwice(p: Params, s: State, src: Sources, t0: real, t1: real, r0: Random, r1: Random,
                 src2: Sources, r2: Random)
    requires Usable(p) && t0 <= t1
    ensures var after := IsTimeState(p, s, src, t0, t1, r0, r1);
            after.next > t0 && !IsTimeResult(p, after, src2, t0, r2)
  {
    hide DeterministicInterval;
    var u := if s.firstcall then s.(firstcall := false, prev := t0, pmembers := src.members)
             else s.(byescheduled := false, prev := t0, pmembers := src.members);
    RandomizedBounds(DeterministicInterval(p, u, src, src.aresender), MinInterval(p, !u.hassentrtcp), r1);
  }

  predicate SameBye(s: State, u: State) {
    && u.byescheduled == s.byescheduled && u.sendbyenow == s.sendbyenow
    && u.byemembers == s.byemembers && u.avgbyepacketsize == s.avgbyepacketsize
  }

  /** What a call of IsTime leaves: with the same members and random value asked again, the timer fires from the
      very moment it is now set to, whether it was just started, restarted or put off. */
  lemma TimerMeansThat(p: Params, s: State, src: Sources, t0: real, r: Random, t: real)
    requires Usable(p) && (if s.firstcall then !s.byescheduled else t0 >= s.next)
    ensures var after := IsTimeState(p, s, src, t0, t0, r, r);
            IsTimeResult(p, after, src, t, r) <==> t >= after.next
  {
    hide DeterministicInterval, Randomized, ByeInterval;
    var after := IsTimeState(p, s, src, t0, t0, r, r);
    SameInterval(p, s, after, src, r);
    SameInterval(p, s, s.(firstcall := false, prev := t0, pmembers := src.members), src, r);
    SameInterval(p, s, s.(byescheduled := false, prev := t0, pmembers := src.members), src, r);
    assert CheckTime(p, after, src, r) == after.next;
  }

  /** No run schedules a BYE before the first call: scheduling one counts as it. */
  lemma NoByeAtFirst(p: Params, s: State, e: Event)
    requires Usable(p) && (s.firstcall ==> !s.byescheduled)
    ensures After(p, s, e).firstcall ==> !After(p, s, e).byescheduled
  {
    hide DeterministicInterval, ByeInterval, TransmissionInterval, Share;
  }

  lemma SameInterval(p: Params, s: State, u: State, src: Sources, r: Random)
    requires Usable(p) && u.hassentrtcp == s.hassentrtcp && u.avgrtcppacksize == s.avgrtcppacksize
    ensures TransmissionInterval(p, u, src, r) == TransmissionInterval(p, s, src, r)
    ensures SameBye(s, u) ==> ByeInterval(p, u, r) == ByeInterval(p, s, r)
  {
    hide Load, Randomized, ByeLoad;
  }

  /** It fires exactly when the timer has expired and the interval, computed anew, has passed since the previous
      time; firing ends a scheduled BYE, and only firing and the first call move the previous time. */
  lemma FiresExactly(p: Params, s: State, src: Sources, t0: real, t1: real, r0: Random, r1: Random)
    requires Usable(p)
    ensures var interval := if s.byescheduled then ByeInterval(p, s, r0) else TransmissionInterval(p, s, src, r0);
            var fires, after := IsTimeResult(p, s, src, t0, r0), IsTimeState(p, s, src, t0, t1, r0, r1);
            && (fires <==> !s.firstcall && t0 >= s.next && t0 >= s.prev + interval)
            && !after.firstcall
            && after.byescheduled == (s.byescheduled && !fires)
            && after.prev == (if fires || s.firstcall then t0 else s.prev)
            && (fires || s.firstcall ==>
                  after.pmembers == src.members && after.next - t1 == TransmissionInterval(p, s, src, r1))
            && (!fires && !s.firstcall && t0 >= s.next ==>
                  after.pmembers == src.members && after.next == s.prev + interval && after.next > t0)
            && (!s.firstcall && t0 < s.next ==> after == s)
  {
    hide DeterministicInterval, Randomized, ByeInterval;
    SameInterval(p, s, IsTimeState(p, s, src, t0, t1, r0, r1), src, r1);
    SameInterval(p, s, s.(firstcall := false, prev := t0, pmembers := src.members), src, r1);
    SameInterval(p, s, s.(byescheduled := false, prev := t0, pmembers := src.members), src, r1);
  }

  /** Scheduling a BYE starts the back-off afresh, with the own BYE as the only one counted; asked again with the
      same random value the timer fires from the moment it is set to, at once for an immediate BYE. */
  lemma ByeScheduled(p: Params, s: State, src: Sources, size: nat, t: real, r: Random, later: real)
    requires Usable(p)
    ensures var b := ScheduleBye(p, s, src, size, t, r);
            && (s.byescheduled ==> b == s)
            && (!s.byescheduled ==>
                  && b.byescheduled && !b.firstcall && b.byemembers == 1 && b.avgbyepacketsize == size && b.prev == t
                  && b.pmembers == (if s.firstcall then src.members else s.pmembers)
                  && b.avgrtcppacksize == s.avgrtcppacksize && b.hassentrtcp == s.hassentrtcp
                  && (b.sendbyenow <==> p.immediatebye && src.members < 50)
                  && (b.sendbyenow ==> b.next == t)
                  && (IsTimeResult(p, b, src, later, r) <==> later >= b.next))
  {
    hide ByeDeterministic, Randomized;
    var b := ScheduleBye(p, s, src, size, t, r);
    SameInterval(p, b.(next := s.next), b, src, r);
  }

  /** A BYE of another member counts while the own one is scheduled and only then. */
  lemma ByesCounted(s: State, size: nat)
    ensures Incoming(s, true, size).byemembers == s.byemembers + (if s.byescheduled then 1 else 0)
    ensures !s.byescheduled ==> Incoming(s, true, size) == s
    ensures Incoming(s, true, size).avgrtcppacksize == s.avgrtcppacksize
    ensures Incoming(s, false, size).avgbyepacketsize == s.avgbyepacketsize
  {
  }

  /** Whatever is sent counts as sent, and for the average only what is no BYE. */
  lemma SentCounted(s: State, isbye: bool, size: nat)
    ensures var r := Outgoing(s, isbye, size);
            && r.hassentrtcp && r == s.(hassentrtcp := true, avgrtcppacksize := r.avgrtcppacksize)
            && r.avgrtcppacksize == if isbye then s.avgrtcppacksize else Incoming(s, false, size).avgrtcppacksize
    ensures Incoming(s, false, size) == s.(avgrtcppacksize := (size + 15 * s.avgrtcppacksize) / 16)
  {
  }

  /** Asking for the delay starts the timer as the first IsTime would, and otherwise changes nothing. */
  lemma AskingStarts(p: Params, s: State, src: Sources, t0: real, t1: real, r0: Random, r1: Random)
    requires Usable(p)
    ensures DelayState(p, s, src, t0, t1, r1)
            == if s.firstcall then IsTimeState(p, s, src, t0, t1, r0, r1) else s
  {
    hide TransmissionInterval;
  }

  /** Nobody remembered counts as one. */
  lemma NobodyRemembered(s: State, members: nat, tc: real)
    requires s.pmembers == 0 && !s.firstcall
    ensures ReverseReconsideration(s, members, tc) == ReverseReconsideration(s.(pmembers := 1), members, tc)
  {
  }

  /** A sixteenth of the new size and fifteen sixteenths of the old average, rounded down. */
  lemma AverageExactly(avg: nat, packsize: nat)
    ensures 16 * Average(avg, packsize) <= packsize + 15 * avg < 16 * Average(avg, packsize) + 16
  {
  }

  // ----- reverse reconsideration -----

  lemma Shrinks(ratio: real, x: real)
    requires 0.0 <= ratio <= 1.0 && x >= 0.0
    ensures 0.0 <= ratio * x <= x
  {
    MulReal(ratio, 1.0, x);
    MulReal(0.0, ratio, x);
  }

  /** The distances of both times from now shrink in proportion to the members left; neither time moves away
      from now, so the previous time never goes backwards and a running timer never gets longer. */
  lemma DecreaseTowardsNow(s: State, members: nat, tc: real)
    requires s.prev <= tc
    ensures var r := MemberDecrease(s, members, tc);
            && s.prev <= r.prev <= tc
            && (s.next >= tc ==> tc <= r.next <= s.next)
            && (!s.firstcall && members < s.pmembers ==>
                 && (tc - r.prev) * s.pmembers as real == (tc - s.prev) * members as real
                 && (s.next >= tc ==> (r.next - tc) * s.pmembers as real == (s.next - tc) * members as real)
                 && (s.next <= tc ==> r.next == tc))
  {
    hide Share;
    if members < s.pmembers && !s.firstcall {
      ShareShrinks(members, s.pmembers, tc - s.prev);
      ShareShrinks(members, s.pmembers, Positive(s.next - tc));
    }
  }

  lemma ShareShrinks(m: nat, w: nat, x: real)
    requires m < w && x >= 0.0
    ensures 0.0 <= Share(m, w, x) <= x && Share(m, w, x) * w as real == x * m as real
    ensures x == 0.0 ==> Share(m, w, x) == 0.0
  {
    var ratio := m as real / w as real;
    assert ratio * w as real == m as real;
    assert 0.0 <= ratio <= 1.0;
    Shrinks(ratio, x);
    assert (ratio * x) * w as real == (ratio * w as real) * x;
  }

  // ----- whole runs -----

  datatype Event =
    | IsTime(src: Sources, t0: real, t1: real, r0: Random, r1: Random)
    | Delay(src: Sources, t0: real, t1: real, r1: Random)
    | Decrease(members: nat, t0: real)
    | In(isbye: bool, packsize: nat)
    | Out(isbye: bool, packsize: nat)
    | Leave(src: Sources, packsize: nat, t0: real, r0: Random)

  function After(p: Params, s: State, e: Event): State
    requires Usable(p)
  {
    match e
    case IsTime(src, t0, t1, r0, r1) => IsTimeState(p, s, src, t0, t1, r0, r1)
    case Delay(src, t0, t1, r1) => DelayState(p, s, src, t0, t1, r1)
    case Decrease(members, t0) => MemberDecrease(s, members, t0)
    case In(isbye, n) => Incoming(s, isbye, n)
    case Out(isbye, n) => Outgoing(s, isbye, n)
    case Leave(src, n, t0, r0) => ScheduleBye(p, s, src, n, t0, r0)
  }

  predicate Fires(p: Params, s: State, e: Event)
    requires Usable(p)
  {
    e.IsTime? && IsTimeResult(p, s, e.src, e.t0, e.r0)
  }

  /** The clock after a call that started no earlier than clock; None when time would run backwards. */
  function Clock(e: Event, clock: real): Option<real> {
    match e
    case IsTime(_, t0, t1, _, _) => if clock <= t0 <= t1 then Some(t1) else None
    case Delay(_, t0, t1, _) => if clock <= t0 <= t1 then Some(t1) else None
    case Decrease(_, t0) => if clock <= t0 then Some(t0) else None
    case In(_, _) => Some(clock)
    case Out(_, _) => Some(clock)
    case Leave(_, _, t0, _) => if clock <= t0 then Some(t0) else None
  }

  predicate Timely(events: seq<Event>, clock: real) {
    events == [] || (Clock(events[0], clock).Some? && Timely(events[1..], Clock(events[0], clock).value))
  }

  /** The moments IsTime returned true, each with the gap owed to the one before. */
  function Firings(p: Params, s: State, events: seq<Event>): seq<(real, real)>
    requires Usable(p)
    decreases |events|
  {
    if events == [] then []
    else
      (if Fires(p, s, events[0]) then [(events[0].t0, Gap(p, s))] else [])
      + Firings(p, After(p, s, events[0]), events[1..])
  }

  /** Every moment keeps its gap from the one before, the first from since. */
  predicate Spaced(fired: seq<(real, real)>, since: real) {
    fired == [] || (fired[0].0 >= since + fired[0].1 && Spaced(fired[1..], fired[0].0))
  }

  lemma StepKeepsPrev(p: Params, s: State, e: Event, clock: real)
    requires Usable(p) && s.prev <= clock && Clock(e, clock).Some?
    ensures s.prev <= After(p, s, e).prev <= Clock(e, clock).value
    ensures Fires(p, s, e) ==> e.IsTime? && After(p, s, e).prev == e.t0 >= s.prev + Gap(p, s)
  {
    hide DeterministicInterval, ByeInterval;
    match e
    case IsTime(src, t0, t1, r0, r1) =>
      GapKept(p, s, src, r0);
    case Decrease(members, t0) =>
      DecreaseTowardsNow(s, members, t0);
    case _ =>
  }

  /** Over every run - any calls in any order, any membership changes, any random values, a clock that never
      runs backwards - two successive moments at which IsTime returns true are at least half the minimum
      interval over 1.21828 apart, or half of that while nothing was sent yet or for a BYE, when half
      intervals are in use. Only an immediate BYE owes no gap. */
  lemma {:induction false} FiringsSpaced(p: Params, s: State, events: seq<Event>, clock: real, since: real)
    requires Usable(p) && s.prev <= clock && Timely(events, clock) && since <= s.prev
    ensures Spaced(Firings(p, s, events), since)
    decreases |events|
  {
    hide After, Gap, Fires;
    if events != [] {
      var e := events[0];
      var next, clock2 := After(p, s, e), Clock(e, clock).value;
      StepKeepsPrev(p, s, e, clock);
      if Fires(p, s, e) {
        FiringsSpaced(p, next, events[1..], clock2, e.t0);
        var rest := Firings(p, next, events[1..]);
        assert ([(e.t0, Gap(p, s))] + rest)[1..] == rest;
      } else {
        FiringsSpaced(p, next, events[1..], clock2, since);
        assert [] + Firings(p, next, events[1..]) == Firings(p, next, events[1..]);
      }
    }
  }

  /** The gap owed at least, unless a BYE is sent at once. */
  function LeastGap(p: Params): (d: real)
    requires Usable(p)
    ensures d > 0.0
  {
    MinInterval(p, true) * 0.5 / 1.21828
  }

  predicate Apart(fired: seq<(real, real)>, d: real) {
    forall i :: 0 <= i < |fired| - 1 ==> fired[i].0 + d <= fired[i + 1].0
  }

  predicate Owed(fired: seq<(real, real)>, d: real) {
    forall i :: 0 <= i < |fired| ==> fired[i].1 >= d
  }

  lemma {:induction false} SpacedApart(fired: seq<(real, real)>, since: real, d: real)
    requires Spaced(fired, since) && Owed(fired, d)
    ensures Apart(fired, d)
    decreases |fired|
  {
    if fired != [] {
      SpacedApart(fired[1..], fired[0].0, d);
      forall i | 0 <= i < |fired| - 1 ensures fired[i].0 + d <= fired[i + 1].0 {
        if i > 0 {
          assert fired[1..][i - 1].0 + d <= fired[1..][i].0;
        }
      }
    }
  }

  lemma NeverAtOnce(p: Params, s: State, e: Event)
    requires Usable(p) && !p.immediatebye && !s.sendbyenow
    ensures !After(p, s, e).sendbyenow && Gap(p, s) >= LeastGap(p)
  {
    hide DeterministicInterval, ByeInterval, TransmissionInterval, Share;
  }

  lemma {:induction false} GapsOwed(p: Params, s: State, events: seq<Event>)
    requires Usable(p) && !p.immediatebye && !s.sendbyenow
    ensures Owed(Firings(p, s, events), LeastGap(p))
    decreases |events|
  {
    hide After, Gap, IsTimeResult, LeastGap;
    if events != [] {
      NeverAtOnce(p, s, events[0]);
      GapsOwed(p, After(p, s, events[0]), events[1..]);
    }
  }

  function StartState(): State {
    State(1000, false, true, 0.0, 0.0, 0, false, 0, 0, false)
  }

  /** First call, a packet when the timer expires, a BYE scheduled at that instant and asked for at once. */
  function PacketThenBye(p: Params, src: Sources, r: Random): (events: seq<Event>)
    requires Usable(p)
    ensures |events| == 4
  {
    var t := FirstCall(p, StartState(), src, 0.0, 0.0, r).next;
    [IsTime(src, 0.0, 0.0, r, r), IsTime(src, t, t, r, r), Leave(src, 0, t, r), IsTime(src, t, t, r, r)]
  }

  /** The timer set by the first call is in the future and fires when it expires. */
  lemma FirstTimer(p: Params, src: Sources, r: Random)
    requires Usable(p)
    ensures var s := FirstCall(p, StartState(), src, 0.0, 0.0, r); s.next > 0.0 && IsTimeResult(p, s, src, s.next, r)
  {
    hide Load, Randomized;
    var s := StartState().(firstcall := false, pmembers := src.members);
    var td := DeterministicInterval(p, s, src, src.aresender);
    RandomizedBounds(td, MinInterval(p, true), r);
    var u := FirstCall(p, StartState(), src, 0.0, 0.0, r);
    assert DeterministicInterval(p, u, src, src.aresender) == td;
  }

  /** A gap of zero for an immediate BYE is no accident of the bound: some run sends a packet and the BYE at
      the same instant, with any number of members below 50 and any random value. */
  lemma ImmediateByeFollowsAtOnce(p: Params, src: Sources, r: Random)
    requires Usable(p) && p.immediatebye && src.members < 50
    ensures var events := PacketThenBye(p, src, r);
            && Timely(events, 0.0)
            && var fired := Firings(p, StartState(), events); |fired| == 2 && fired[0].0 == fired[1].0
  {
    hide DeterministicInterval, Randomized, TransmissionInterval, FirstCall;
    FirstTimer(p, src, r);
    var s1 := FirstCall(p, StartState(), src, 0.0, 0.0, r);
    var t := s1.next;
    var events := PacketThenBye(p, src, r);
    var s2, last := After(p, s1, events[1]), events[3];
    var s3 := After(p, s2, events[2]);
    assert events[1..] == [events[1], events[2], last];
    assert [events[1], events[2], last][1..] == [events[2], last];
    assert [events[2], last][1..] == [last];
    assert Clock(events[2], t) == Some(t) && Clock(last, t) == Some(t);
    assert [last][1..] == [] && Timely([last][1..], t);
    assert Timely([last], t);
    assert Timely([events[2], last][1..], t);
    assert Timely([events[2], last], t);
    assert Fires(p, s3, last);
    assert Firings(p, s3, [last]) == [(t, Gap(p, s3))];
    assert Firings(p, s2, [events[2], last]) == [(t, Gap(p, s3))];
    assert Firings(p, s1, events[1..]) == [(t, Gap(p, s1)), (t, Gap(p, s3))];
  }

  /** Successive packets are kept apart over every run if and only if immediate BYE packets are off. */
  lemma ApartUnlessImmediate(p: Params)
    requires Usable(p)
    ensures (forall events :: Timely(events, 0.0) ==> Apart(Firings(p, StartState(), events), LeastGap(p)))
            <==> !p.immediatebye
  {
    if p.immediatebye {
      var src := Sources(1, 0, false);
      ImmediateByeFollowsAtOnce(p, src, 0.0);
      var fired := Firings(p, StartState(), PacketThenBye(p, src, 0.0));
      assert fired[0].0 + LeastGap(p) > fired[1].0;
    } else {
      forall events | Timely(events, 0.0) ensures Apart(Firings(p, StartState(), events), LeastGap(p)) {
        FiringsSpaced(p, StartState(), events, 0.0, 0.0);
        GapsOwed(p, StartState(), events);
        SpacedApart(Firings(p, StartState(), events), 0.0, LeastGap(p));
      }
    }
  }
}
