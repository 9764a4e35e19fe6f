/** The scheduler object of rtcpscheduler.cpp. Each method takes the clock readings and random values it
    consumes, in order, and what the source table would answer; it is proved to take the step that
    RtcpSchedule describes. */
module RtcpScheduler {
  import opened RtcpSchedule

  class RTCPScheduler {
    const schedparams: Params
    const headeroverhead: nat
    var avgrtcppacksize: nat
    var hassentrtcp: bool
    var firstcall: bool
    var nextrtcptime: real
    var prevrtcptime: real
    var pmembers: nat
    var byescheduled: bool
    var byemembers: nat
    var avgbyepacketsize: nat
    var sendbyenow: bool

    constructor (params: Params, overhead: nat)
      ensures schedparams == params && headeroverhead == overhead && Current() == StartState()
      ensures avgrtcppacksize == 1000 && !hassentrtcp && firstcall && !byescheduled && !sendbyenow && pmembers == 0
    {
      schedparams, headeroverhead := params, overhead;
      hassentrtcp, firstcall, avgrtcppacksize, byescheduled, sendbyenow := false, true, 1000, false, false;
      nextrtcptime, prevrtcptime := 0.0, 0.0;
      pmembers, byemembers, avgbyepacketsize := 0, 0, 0;
    }

    function Current(): State
      reads this
    {
      State(avgrtcppacksize, hassentrtcp, firstcall, nextrtcptime, prevrtcptime, pmembers, byescheduled,
            byemembers, avgbyepacketsize, sendbyenow)
    }

    /** Walks the packets of a compound packet until a BYE turns up. */
    method HoldsBye(types: seq<nat>) returns (isbye: bool)
      ensures isbye <==> 203 in types
    {
      isbye := false;
      var i := 0;
      while !isbye && i < |types|
        invariant 0 <= i <= |types|
        invariant isbye <==> BYE in types[..i]
      {
        if types[i] == BYE {
          isbye := true;
        }
        i := i + 1;
      }
    }

    method AnalyseIncoming(types: seq<nat>, length: nat)
      modifies this
      ensures Current() == Incoming(old(Current()), 203 in types, headeroverhead + length)
    {
      var isbye := HoldsBye(types);
      if !isbye {
        var packsize := headeroverhead + length;
        avgrtcppacksize := (packsize + 15 * avgrtcppacksize) / 16;
      } else {
        if byescheduled {
          var packsize := headeroverhead + length;
          avgbyepacketsize := (packsize + 15 * avgbyepacketsize) / 16;
          byemembers := byemembers + 1;
        }
      }
    }

    method AnalyseOutgoing(types: seq<nat>, length: nat)
      modifies this
      ensures Current() == Outgoing(old(Current()), 203 in types, headeroverhead + length)
    {
      var isbye := HoldsBye(types);
      if !isbye {
        var packsize := headeroverhead + length;
        avgrtcppacksize := (packsize + 15 * avgrtcppacksize) / 16;
      }
      hassentrtcp := true;
    }

    method TimesC(sources: Sources, sender: bool) returns (ntimesC: real)
      requires Usable(schedparams)
      ensures ntimesC == Load(schedparams, avgrtcppacksize, sources, sender)
    {
      hide C, Times, SenderBandwidth, ReceiverBandwidth;
      var numsenders: int, numtotal: int := sources.senders, sources.members;
      if numtotal == 0 {
        numtotal := numtotal + 1;
      }
      var sfraction := numsenders as real / numtotal as real;
      var c: real;
      var n: int;
      if sfraction <= schedparams.senderfraction {
        if sender {
          c := C(avgrtcppacksize, SenderBandwidth(schedparams));
          n := numsenders;
        } else {
          c := C(avgrtcppacksize, ReceiverBandwidth(schedparams));
          n := numtotal - numsenders;
        }
      } else {
        c := C(avgrtcppacksize, schedparams.bandwidth);
        n := numtotal;
      }
      ntimesC := Times(n, c);
    }

    method CalculateDeterministicInterval(sources: Sources, sender: bool) returns (td: real)
      requires Usable(schedparams)
      ensures td == DeterministicInterval(schedparams, Current(), sources, sender)
    {
      hide Load;
      var tmin := schedparams.mininterval;
      if !hassentrtcp && schedparams.usehalfatstartup {
        tmin := tmin / 2.0;
      }
      var ntimesC := TimesC(sources, sender);
      td := if tmin > ntimesC then tmin else ntimesC;
    }

    method CalculateTransmissionInterval(sources: Sources, rnd: Random) returns (t: real)
      requires Usable(schedparams)
      ensures t == TransmissionInterval(schedparams, Current(), sources, rnd)
    {
      hide DeterministicInterval;
      var td := CalculateDeterministicInterval(sources, sources.aresender);
      var mul := rnd + 0.5;
      t := (td * mul) / 1.21828;
    }

    method CalculateBYETransmissionInterval(rnd: Random) returns (t: real)
      requires Usable(schedparams)
      ensures t == ByeInterval(schedparams, Current(), rnd)
    {
      hide C, Times, ReceiverBandwidth;
      if !byescheduled {
        return 0.0;
      }
      if sendbyenow {
        return 0.0;
      }
      var c := C(avgbyepacketsize, ReceiverBandwidth(schedparams));
      var n := byemembers;
      var tmin := schedparams.mininterval;
      if schedparams.usehalfatstartup {
        tmin := tmin / 2.0;
      }
      var ntimesC := Times(n, c);
      var td := if tmin > ntimesC then tmin else ntimesC;
      var mul := rnd + 0.5;
      t := (td * mul) / 1.21828;
    }

    method CalculateNextRTCPTime(sources: Sources, now: real, rnd: Random)
      requires Usable(schedparams)
      modifies `nextrtcptime
      ensures Current() == ScheduleNext(schedparams, old(Current()), sources, now, rnd)
    {
      nextrtcptime := now;
      var interval := CalculateTransmissionInterval(sources, rnd);
      SameInterval(old(Current()), now, sources, rnd);
      nextrtcptime := nextrtcptime + interval;
    }

    lemma SameInterval(s: State, t: real, sources: Sources, rnd: Random)
      requires Usable(schedparams)
      ensures TransmissionInterval(schedparams, s.(next := t), sources, rnd)
              == TransmissionInterval(schedparams, s, sources, rnd)
    {
      hide Load, Randomized;
    }

    method IsTime(sources: Sources, t0: real, t1: real, r0: Random, r1: Random) returns (istime: bool)
      requires Usable(schedparams)
      modifies this
      ensures istime == IsTimeResult(schedparams, old(Current()), sources, t0, r0)
      ensures Current() == IsTimeState(schedparams, old(Current()), sources, t0, t1, r0, r1)
    {
      hide TransmissionInterval, ByeInterval;
      if firstcall {
        firstcall := false;
        prevrtcptime := t0;
        pmembers := sources.members;
        CalculateNextRTCPTime(sources, t1, r1);
        return false;
      }
      var currenttime := t0;
      if currenttime < nextrtcptime {
        return false;
      }
      var checktime;
      if !byescheduled {
        checktime := CalculateTransmissionInterval(sources, r0);
      } else {
        checktime := CalculateBYETransmissionInterval(r0);
      }
      checktime := checktime + prevrtcptime;
      if checktime <= currenttime {
        byescheduled := false;
        prevrtcptime := currenttime;
        pmembers := sources.members;
        CalculateNextRTCPTime(sources, t1, r1);
        return true;
      }
      nextrtcptime := checktime;
      pmembers := sources.members;
      return false;
    }

    /** The returned wait ends exactly when the timer expires. */
    method GetTransmissionDelay(sources: Sources, t0: real, t1: real, t2: real, r1: Random) returns (delay: real)
      requires Usable(schedparams)
      modifies this
      ensures Current() == DelayState(schedparams, old(Current()), sources, t0, t1, r1)
      ensures delay >= 0.0 && t2 + delay >= Current().next && (delay > 0.0 ==> t2 + delay == Current().next)
    {
      hide TransmissionInterval;
      if firstcall {
        firstcall := false;
        prevrtcptime := t0;
        pmembers := sources.members;
        CalculateNextRTCPTime(sources, t1, r1);
      }
      var curtime := t2;
      if curtime > nextrtcptime {
        return 0.0;
      }
      return nextrtcptime - curtime;
    }

    method PerformReverseReconsideration(members: nat, tc: real)
      modifies this
      ensures Current() == ReverseReconsideration(old(Current()), members, tc)
    {
      if firstcall {
        return;
      }
      var tn_min_tc := if nextrtcptime > tc then nextrtcptime - tc else 0.0;
      var tc_min_tp := if tc > prevrtcptime then tc - prevrtcptime else 0.0;
      if pmembers == 0 {
        pmembers := pmembers + 1;
      }
      var diff1 := members as real / pmembers as real * tn_min_tc;
      var diff2 := members as real / pmembers as real * tc_min_tp;
      nextrtcptime := tc;
      prevrtcptime := tc;
      nextrtcptime := nextrtcptime + diff1;
      prevrtcptime := prevrtcptime - diff2;
      pmembers := members;
    }

    method ActiveMemberDecrease(members: nat, tc: real)
      modifies this
      ensures Current() == MemberDecrease(old(Current()), members, tc)
    {
      if members < pmembers {
        PerformReverseReconsideration(members, tc);
      }
    }

    method ScheduleBYEPacket(packetsize: nat, sources: Sources, t0: real, r0: Random)
      requires Usable(schedparams)
      modifies this
      ensures Current() == ScheduleBye(schedparams, old(Current()), sources, packetsize + headeroverhead, t0, r0)
    {
      hide ByeDeterministic;
      if byescheduled {
        return;
      }
      if firstcall {
        firstcall := false;
        pmembers := sources.members;
      }
      byescheduled := true;
      avgbyepacketsize := packetsize + headeroverhead;
      byemembers := 1;
      sendbyenow := schedparams.immediatebye && sources.members < 50;
      prevrtcptime := t0;
      var interval := CalculateBYETransmissionInterval(r0);
      nextrtcptime := prevrtcptime + interval;
    }
  }
}
