/** What the host driver asks for does arrive, and what the host sends does last: the timers do not strike early. */
module SessionDelivery {
  import opened Bits
  import opened Protocol
  import opened Receipt
  import opened HidQueue
  import opened RumbleQueue
  import opened SessionModel
  import opened SessionSafety
  import opened SessionLog
  import opened SessionHid
  import opened SessionRumble
  import opened SessionTiming
  import opened SessionProgress
  import opened SessionHandshake

  // ----- The packet of the driver -----

  /** A packet counts exactly in an open, idle session: a zero stops the motors, another, out of quarantine, counts. */
  lemma PacketIsHeard(s: Session, f: Feedback, at: nat)
    requires Inv(s)
    ensures var t := Step(s, RumbleArrived(f, at));
      && t == s.(rumble := t.rumble)
      && (!s.link.negotiated || Busy(s) ==> t == s)
      && (s.link.negotiated && !Busy(s) && !Active(f) ==>
          t.rumble.desired == ZERO && !t.rumble.quarantined && t.rumble.pendingIsSafetyZero)
      && (s.link.negotiated && !Busy(s) && Active(f) && s.rumble.quarantined ==>
          t.rumble == s.rumble.(quietSinceMs := Clock(at)))
      && (s.link.negotiated && !Busy(s) && Active(f) && !s.rumble.quarantined ==>
          t.rumble.desired == f && t.rumble.lastSourceMs == Clock(at) && t.rumble.pending && !t.rumble.quarantined)
  {
    hide HidQueue.Sound;
  }

  /** A connection, a mount and an answered greeting put the driver in quarantine. */
  predicate BeginsQuarantine(s: Session, e: Event) {
    || e.CdcConnected? || e.HidMounted?
    || (e.FrameArrived? && e.frame.messageType == HELLO && Greeted(s, e.frame))
  }

  /** A packet at rest, 250 ms of quiet, the end of the connection and of the power end it. */
  predicate EndsQuarantine(s: Session, e: Event) {
    || e.CdcDisconnected? || e.PowerCycled?
    || (e.RumbleArrived? && s.link.negotiated && !Busy(s) && !Active(e.feedback))
    || (e.Ticked? && s.link.negotiated && Elapsed(Clock(e.at), s.rumble.quietSinceMs) >= 250)
  }

  /** Any other packet makes its quiet start over. */
  predicate BreaksQuiet(s: Session, e: Event) {
    e.RumbleArrived? && s.link.negotiated && !Busy(s) && Active(e.feedback) && s.rumble.quarantined
  }

  predicate QuarantineMoves(s: Session, e: Event, r: Rumble) {
    && (r.quarantined <==> BeginsQuarantine(s, e) || (s.rumble.quarantined && !EndsQuarantine(s, e)))
    && (r.quietSinceMs
        == if BeginsQuarantine(s, e) || BreaksQuiet(s, e) then Clock(e.at)
           else if e.PowerCycled? then 0 else s.rumble.quietSinceMs)
  }

  lemma QuarantineMovesBefore(s: Session, e: Event)
    ensures QuarantineMoves(s, e, RumbleBeforeSending(s, e))
  {
    hide SafetyEvent, Elapsed, WatchdogExpired, ForceZero, FromSource, RumbleQueue.Quarantine, Timers, Greeted,
         HelloAnswered;
    var now: uint32 := if e.CdcConnected? || e.HidMounted? || e.FrameArrived? then Clock(e.at) else 0;
    GreetedIsAnswered(s, e);
    ForcingKeepsQuarantine(s.rumble, now);
    ForcingKeepsQuarantine(s.rumble.(quarantined := false), now);
    ForcingKeepsQuarantine(ForceZero(s.rumble), now);
    ForcingKeepsQuarantine(ForceZero(s.rumble.(quarantined := false)), now);
    if e.Ticked? {
      TimersKeepQuiet(s.rumble, Clock(e.at));
      TimersKeepQuiet(ForceZero(s.rumble), Clock(e.at));
    } else if e.RumbleArrived? {
      PacketsAndQuiet(s.rumble, e.feedback, Clock(e.at));
    }
  }

  lemma PacketsAndQuiet(r: Rumble, f: Feedback, now: uint32)
    ensures FromSource(r, f, now).quarantined <==> r.quarantined && Active(f)
    ensures FromSource(r, f, now).quietSinceMs == if r.quarantined && Active(f) then now else r.quietSinceMs
  {
  }

  lemma GreetedIsAnswered(s: Session, e: Event)
    ensures e.FrameArrived? && e.frame.messageType == HELLO ==> Greeted(s, e.frame) == HelloAnswered(s, e.frame)
  {
  }

  lemma ForcingKeepsQuarantine(r: Rumble, now: uint32)
    ensures ForceZero(r).quarantined == r.quarantined && ForceZero(r).quietSinceMs == r.quietSinceMs
    ensures RumbleQueue.Quarantine(r, now).quarantined && RumbleQueue.Quarantine(r, now).quietSinceMs == now
  {
  }

  lemma TimersKeepQuiet(r: Rumble, now: uint32)
    ensures Timers(r, now).quietSinceMs == r.quietSinceMs
    ensures Timers(r, now).quarantined <==> r.quarantined && Elapsed(now, r.quietSinceMs) < 250
  {
    hide Elapsed, ForceZero;
    ForcingKeepsQuarantine(r, now);
    ForcingKeepsQuarantine(r.(quarantined := false), now);
  }

  lemma SendingKeepsQuarantine(r: Rumble, now: uint32)
    ensures Transmitted(r, now).quarantined == r.quarantined && Transmitted(r, now).quietSinceMs == r.quietSinceMs
  {
  }

  /** Quarantine: what begins it, what ends it, and since when it has been quiet, over every event. */
  lemma QuarantineExactly(s: Session, e: Event)
    ensures QuarantineMoves(s, e, Step(s, e).rumble)
  {
    hide Step, Rumbles, RumbleBeforeSending, Transmitted, RumblePayload, BeginsQuarantine, EndsQuarantine, BreaksQuiet;
    RumbleEvolves(s, e);
    QuarantineMovesBefore(s, e);
    if e.Ticked? {
      SendingKeepsQuarantine(RumbleBeforeSending(s, e), Clock(e.at));
    }
  }

  /** A tick leaves an idle session idle. */
  lemma IdleStays(s: Session, at: nat)
    requires !Busy(s)
    ensures !Busy(Step(s, Ticked(at)))
  {
    hide ServiceDeviceInfo, ServiceRumble, ServiceInstallReceipt, ServiceUf2, QueueReport, ForceZero, Passed;
    var a := ServiceWatchdog(s, Clock(at));
    var b := ServiceDeviceInfo(a);
    var c := ServiceRumble(b, Clock(at));
    InfoPasses(a);
    RumblePasses(b, Clock(at));
    ReceiptServicePasses(c);
    Uf2Passes(c);
  }

  /** After 250 ms of quiet the tick that sees them ends the quarantine, and the next packet counts. */
  lemma QuietEndsQuarantine(s: Session, tick: nat, f: Feedback, at: nat)
    requires Inv(s) && s.link.negotiated && !Busy(s) && Active(f)
    requires Elapsed(Clock(tick), s.rumble.quietSinceMs) >= 250
    ensures Step(Step(s, Ticked(tick)), RumbleArrived(f, at)).rumble.desired == f
  {
    hide Step, Inv, Elapsed;
    var t := Step(s, Ticked(tick));
    QuarantineExactly(s, Ticked(tick));
    OpenExactly(s, Ticked(tick));
    IdleStays(s, tick);
    StepKeepsInv(s, Ticked(tick));
    PacketIsHeard(t, f, at);
  }

  // ----- A tick sends what is pending -----

  lemma TickSendsPending(s: Session, at: nat)
    requires s.link.negotiated && Willing(s.world, 2)
    ensures var r, t := RumbleBeforeSending(s, Ticked(at)), Step(s, Ticked(at));
      && t.rumble == (if r.pending then Transmitted(r, Clock(at)) else r)
      && Rumbles(t.world.log)
         == Rumbles(s.world.log) + if r.pending then [RumblePayload(r.pendingFeedback)] else []
  {
    hide SendMessage, ReadReceipt, DeviceInfoPayload, ServiceDeviceInfo, ServiceRumble, ServiceInstallReceipt, ToBytes,
         QueueReport, ForceZero, Timers, Transmitted, RumblePayload, Rumbles, Willing;
    var now := Clock(at);
    var a := ServiceWatchdog(s, now);
    var b := ServiceDeviceInfo(a);
    InfoLeavesRumble(a);
    InfoPasses(a);
    StillWilling(a.world, b.world, 1, 1);
    PendingIsSent(b, now);
    var c := ServiceRumble(b, now);
    ReceiptServiceRumble(c);
    var d := ServiceInstallReceipt(c);
    SendKeepsRumble(d, UF2_BOOTLOADER_READY, ToBytes(d.uf2.requestId, 4));
  }

  lemma InfoLeavesRumble(s: Session)
    ensures Untouched(s, ServiceDeviceInfo(s)) && ServiceDeviceInfo(s).link.negotiated == s.link.negotiated
  {
    hide SendMessage, ReadReceipt, DeviceInfoPayload, Rumbles;
    SendKeepsRumble(s, DEVICE_INFO, DeviceInfoPayload(ReadReceipt(s.world.page)));
  }

  lemma PendingIsSent(s: Session, now: uint32)
    requires s.link.negotiated && Willing(s.world, 1)
    ensures var r, t := Timers(s.rumble, now), ServiceRumble(s, now);
      && t.rumble == (if r.pending then Transmitted(r, now) else r)
      && Rumbles(t.world.log)
         == Rumbles(s.world.log) + if r.pending then [RumblePayload(r.pendingFeedback)] else []
  {
    hide SendMessage, Timers, Transmitted, RumblePayload, Rumbles;
    var t := s.(rumble := Timers(s.rumble, now));
    var payload := RumblePayload(t.rumble.pendingFeedback);
    SendPasses(t, RUMBLE, payload);
    SendLog(t, RUMBLE, payload);
    RumblesAppend(s.world.log, CdcSent(s.transmitSequence, RUMBLE, payload));
  }

  // ----- What is asked for arrives -----

  /** Nothing asks for another rumble, and nothing forces the motors off. */
  predicate Leaves(s: Session, e: Event) {
    !ZeroForced(s, e) && !e.RumbleArrived?
  }

  predicate Lasting(s: Session, events: seq<Event>)
    decreases |events|
  {
    events == [] || (Leaves(s, events[0]) && Lasting(Step(s, events[0]), events[1..]))
  }

  /** The last rumble frame sent carries what is desired. */
  predicate Arrived(s: Session) {
    Rumbles(s.world.log) != [] && Rumbles(s.world.log)[|Rumbles(s.world.log)| - 1] == RumblePayload(s.rumble.desired)
  }

  /** How far the desired rumble is: 2 behind a zero, 1 waiting, 0 with the host. */
  predicate Within(s: Session, steps: nat) {
    && Inv(s) && Active(s.rumble.desired)
    && (steps == 0 ==> Arrived(s))
    && (steps <= 1 ==> !s.rumble.pendingIsSafetyZero)
    && (!s.rumble.pending ==> Arrived(s))
  }

  lemma LeftAlone(s: Session, e: Event)
    requires Inv(s) && Active(s.rumble.desired) && Leaves(s, e)
    ensures Step(s, e).rumble.desired == s.rumble.desired
    ensures !e.Ticked? ==> Step(s, e).rumble == s.rumble && Rumbles(Step(s, e).world.log) == Rumbles(s.world.log)
  {
    hide Step, Rumbles, SafetyEvent, HelloAnswered, ForceZero, RumbleQueue.Quarantine, LeaseExpired, WatchdogExpired,
         HidQueue.Sound;
    RumbleEvolves(s, e);
    GreetingIsUnsafe(s, e);
    TickLeaves(s, e);
  }

  lemma GreetingIsUnsafe(s: Session, e: Event)
    ensures e.FrameArrived? && e.frame.messageType == HELLO ==> SafetyEvent(s, e)
    ensures e.CdcConnected? || e.CdcDisconnected? || e.HidMounted? || e.PowerCycled? ==> SafetyEvent(s, e)
    ensures e.Ticked? ==> (SafetyEvent(s, e) <==> WatchdogExpired(s, Clock(e.at)))
  {
  }

  lemma TickLeaves(s: Session, e: Event)
    requires Inv(s) && Active(s.rumble.desired) && Leaves(s, e)
    ensures e.Ticked? ==> !WatchdogExpired(s, Clock(e.at)) && !LeaseExpired(s.rumble, Clock(e.at))
    ensures e.Ticked? ==> RumbleBeforeSending(s, e) == Timers(s.rumble, Clock(e.at))
    ensures e.Ticked? ==> Timers(s.rumble, Clock(e.at)).desired == s.rumble.desired
  {
    hide LeaseExpired, WatchdogExpired, HidQueue.Sound, ForceZero;
    GreetingIsUnsafe(s, e);
  }

  /** A tick without a refresh due sends what is pending; with one due, the desired rumble again. */
  lemma TimersOfActive(r: Rumble, now: uint32)
    requires RumbleQueue.Sound(r) && Active(r.desired) && !LeaseExpired(r, now)
    ensures var q := Timers(r, now);
      && q.desired == r.desired && !q.quarantined
      && (r.pending ==> q == r)
      && (!r.pending ==> (q.pending <==> Elapsed(now, r.lastTxMs) >= 25))
      && (!r.pending && q.pending ==> q.pendingFeedback == r.desired && !q.pendingIsSafetyZero && !q.deferred)
  {
    hide Elapsed, LeaseExpired;
  }

  lemma TickBringsNearer(s: Session, at: nat, steps: nat)
    requires Within(s, steps + 1) && Leaves(s, Ticked(at)) && Willing(s.world, 2)
    ensures Within(Step(s, Ticked(at)), steps)
    ensures Step(s, Ticked(at)).rumble.desired == s.rumble.desired
  {
    hide Step, Rumbles, RumblePayload, Timers, Transmitted, HidQueue.Sound, Leaves, LeaseExpired, WatchdogExpired,
         Willing;
    var t, now := Step(s, Ticked(at)), Clock(at);
    StepKeepsInv(s, Ticked(at));
    ActiveIsNegotiated(s);
    TickSendsPending(s, at);
    TickLeaves(s, Ticked(at));
    TimersOfActive(s.rumble, now);
    RumbleStaysSound(s.rumble, ZERO, now);
    if Timers(s.rumble, now).pending {
      SentOfActive(Timers(s.rumble, now), now);
    }
  }

  /** Sending what is pending sends a forced zero with the desired rumble behind it, or that rumble. */
  lemma SentOfActive(r: Rumble, now: uint32)
    requires RumbleQueue.Sound(r) && Active(r.desired) && r.pending
    ensures var q := Transmitted(r, now);
      && q.desired == r.desired && !q.pendingIsSafetyZero
      && (r.pendingIsSafetyZero ==> q.pending)
      && (!r.pendingIsSafetyZero ==> r.pendingFeedback == r.desired)
  {
  }

  lemma NearerStays(s: Session, steps: nat)
    requires Within(s, steps)
    ensures Within(s, steps + 1)
  {
    hide Rumbles, RumblePayload, HidQueue.Sound;
  }

  lemma {:induction false} WithinStays(s: Session, events: seq<Event>, steps: nat, n: nat)
    requires Within(s, steps) && Lasting(s, events) && Willing(s.world, 4 * |events| + n)
    ensures Within(Run(s, events), steps) && Willing(Run(s, events).world, n)
    ensures Run(s, events).rumble.desired == s.rumble.desired
    decreases |events|
  {
    hide Step, Within, Willing, Leaves;
    if events != [] {
      var e := events[0];
      StepWithin(s, e, steps, 4 * |events[1..]| + n);
      WithinStays(Step(s, e), events[1..], steps, n);
    }
  }

  lemma StepWithin(s: Session, e: Event, steps: nat, n: nat)
    requires Within(s, steps) && Leaves(s, e) && Willing(s.world, n + 4)
    ensures Within(Step(s, e), steps) && Willing(Step(s, e).world, n)
    ensures Step(s, e).rumble.desired == s.rumble.desired
  {
    hide Step, Rumbles, RumblePayload, HidQueue.Sound, RumbleQueue.Sound, Leaves, Willing;
    StepPasses(s, e);
    StillWilling(s.world, Step(s, e).world, 4, n);
    if e.Ticked? {
      TwoOfFour(s.world, n);
      NearerStays(s, steps);
      TickBringsNearer(s, e.at, steps);
    } else {
      LeftAlone(s, e);
      StepKeepsInv(s, e);
    }
  }

  lemma TwoOfFour(w: World, n: nat)
    requires Willing(w, n + 4)
    ensures Willing(w, 2)
  {
  }

  lemma PacketStartsOut(s: Session, f: Feedback, at: nat)
    requires Inv(s) && s.link.negotiated && !Busy(s) && !s.rumble.quarantined && Active(f)
    ensures var t := Step(s, RumbleArrived(f, at)); Within(t, 2) && t.rumble.desired == f && t.world == s.world
  {
    hide Step, Rumbles, RumblePayload, HidQueue.Sound, RumbleQueue.Sound;
    PacketIsHeard(s, f, at);
    StepKeepsInv(s, RumbleArrived(f, at));
  }

  lemma LastingParts(s: Session, a: seq<Event>, b: seq<Event>)
    requires Lasting(s, a + b)
    ensures Lasting(s, a) && Lasting(Run(s, a), b)
    decreases |a|
  {
    hide Step, Leaves;
    if a == [] {
      assert a + b == b;
    } else {
      assert (a + b)[0] == a[0] && (a + b)[1..] == a[1..] + b;
      LastingParts(Step(s, a[0]), a[1..], b);
    }
  }

  /** Any number of events, then a tick: one step nearer. */
  lemma RunBringsNearer(s: Session, events: seq<Event>, at: nat, steps: nat, n: nat)
    requires Within(s, steps + 1) && Lasting(s, events + [Ticked(at)]) && Willing(s.world, 4 * |events| + 4 + n)
    ensures var t := Run(s, events + [Ticked(at)]);
      Within(t, steps) && Willing(t.world, n) && t.rumble.desired == s.rumble.desired
  {
    hide Step, Within, Willing, Leaves, Run;
    LastingParts(s, events, [Ticked(at)]);
    var p := Run(s, events);
    WithinStays(s, events, steps + 1, n + 4);
    RunConcat(s, events, [Ticked(at)]);
    OneStep(p, Ticked(at));
    LeavesFirst(p, Ticked(at));
    TwoOfFour(p.world, n);
    TickBringsNearer(p, at, steps);
    StepPasses(p, Ticked(at));
    StillWilling(p.world, Step(p, Ticked(at)).world, 4, n);
  }

  lemma LeavesFirst(s: Session, e: Event)
    requires Lasting(s, [e])
    ensures Leaves(s, e)
  {
    hide Leaves, Step;
  }

  /**
   * What the driver asks for arrives: an active packet in an open, idle session out of quarantine is, two
   * ticks later at the latest, what the last rumble frame sent carries, through any run in which nothing
   * forces the motors off, no other packet comes, and the host takes the frames.
   */
  lemma RumbleIsDelivered(s: Session, f: Feedback, at: nat, a: seq<Event>, first: nat, b: seq<Event>, second: nat)
    requires Reachable(s) && s.link.negotiated && !Busy(s) && !s.rumble.quarantined && Active(f)
    requires Willing(s.world, 4 * (|a| + |b| + 2))
    requires Lasting(Step(s, RumbleArrived(f, at)), a + [Ticked(first)] + (b + [Ticked(second)]))
    ensures var t := Run(Step(s, RumbleArrived(f, at)), a + [Ticked(first)] + (b + [Ticked(second)]));
      var sent := Rumbles(t.world.log);
      t.rumble.desired == f && sent != [] && sent[|sent| - 1] == RumblePayload(f)
  {
    hide Step, Run, Lasting, Within, Inv, LogInv, Rumbles, RumblePayload, Willing, Reachable;
    ReachableStates(s);
    PacketStartsOut(s, f, at);
    var t := Step(s, RumbleArrived(f, at));
    LastingParts(t, a + [Ticked(first)], b + [Ticked(second)]);
    RunConcat(t, a + [Ticked(first)], b + [Ticked(second)]);
    RunBringsNearer(t, a, first, 1, 4 * |b| + 4);
    RunBringsNearer(Run(t, a + [Ticked(first)]), b, second, 0, 0);
    IsArrived(Run(Run(t, a + [Ticked(first)]), b + [Ticked(second)]));
  }

  lemma IsArrived(s: Session)
    requires Within(s, 0)
    ensures Arrived(s)
  {
    hide Rumbles, RumblePayload, Inv;
  }

  /**
   * The refresh: with the desired rumble at the host and the lease running, a tick repeats it exactly if the
   * last transmission is 25 ms old or more, and that tick becomes the last transmission.
   */
  lemma RefreshExactly(s: Session, at: nat)
    requires Reachable(s) && Active(s.rumble.desired) && !s.rumble.pending
    requires Leaves(s, Ticked(at)) && Willing(s.world, 2)
    ensures var t, due := Step(s, Ticked(at)), Elapsed(Clock(at), s.rumble.lastTxMs) >= 25;
      && Rumbles(t.world.log)
         == Rumbles(s.world.log) + (if due then [RumblePayload(s.rumble.desired)] else [])
      && t.rumble.lastTxMs == (if due then Clock(at) else s.rumble.lastTxMs)
      && !t.rumble.pending && t.rumble.desired == s.rumble.desired
  {
    hide Step, Rumbles, RumblePayload, Timers, HidQueue.Sound, Leaves, LeaseExpired, WatchdogExpired, Willing, Elapsed,
         Orderly, LastHid, LastRumble, Reachable;
    ReachableStates(s);
    ActiveIsNegotiated(s);
    TickSendsPending(s, at);
    TickLeaves(s, Ticked(at));
    TimersOfActive(s.rumble, Clock(at));
    TimersKeepClock(s.rumble, Clock(at));
  }

  lemma TimersKeepClock(r: Rumble, now: uint32)
    ensures Timers(r, now).lastTxMs == r.lastTxMs && Transmitted(r, now).lastTxMs == now
  {
    hide Elapsed;
  }

  // ----- The timers do not strike early -----

  predicate Passive(s: Session, e: Event) {
    !SafetyEvent(s, e) && Applied(s, e).None?
  }

  predicate PassiveAll(s: Session, events: seq<Event>)
    decreases |events|
  {
    events == [] || (Passive(s, events[0]) && PassiveAll(Step(s, events[0]), events[1..]))
  }

  lemma {:induction false} InputStays(s: Session, events: seq<Event>)
    requires Inv(s) && PassiveAll(s, events)
    ensures var t := Run(s, events); Inv(t) && Target(t.hid) == Target(s.hid) && t.lastDataMs == s.lastDataMs
    decreases |events|
  {
    hide Step, SafetyEvent, Applied, Inv;
    if events != [] {
      var e := events[0];
      TargetIsLatest(s, e);
      DataTimeEvolves(s, e);
      StepKeepsInv(s, e);
      InputStays(Step(s, e), events[1..]);
    }
  }

  /**
   * The watchdog strikes on time and not before: after an applied, non-neutral gamepad frame, and any run
   * that neither applies another frame nor is unsafe, a tick makes the device safe exactly if 100 ms have
   * passed on the 32-bit clock; until then the target is that report.
   */
  lemma WatchdogExactly(s: Session, frame: CheckedFrame, at: nat, between: seq<Event>, tick: nat)
    requires Reachable(s) && frame.messageType == GAMEPAD_STATE && Applied(s, FrameArrived(frame, at)).Some?
    requires ReportOf(frame) != NEUTRAL_REPORT && at <= tick
    requires PassiveAll(Step(s, FrameArrived(frame, at)), between)
    ensures var t := Run(Step(s, FrameArrived(frame, at)), between);
      && Target(t.hid) == ReportOf(frame)
      && (SafetyEvent(t, Ticked(tick)) <==> (tick - at) % 0x1_0000_0000 >= 100)
      && Target(Step(t, Ticked(tick)).hid)
         == if (tick - at) % 0x1_0000_0000 >= 100 then NEUTRAL_REPORT else ReportOf(frame)
  {
    hide Step, Inv, LogInv, SafetyEvent, Run, PassiveAll, ReportOf, Reachable;
    var e := FrameArrived(frame, at);
    ReachableStates(s);
    StepKeepsInv(s, e);
    AppliedIsReport(s, frame, at);
    TargetIsLatest(s, e);
    DataTimeEvolves(s, e);
    InputStays(Step(s, e), between);
    var t := Run(Step(s, e), between);
    GreetingIsUnsafe(t, Ticked(tick));
    ArmedWatchdog(t, Clock(tick));
    ElapsedIs(tick, at);
    TargetIsLatest(t, Ticked(tick));
  }

  lemma AppliedIsReport(s: Session, frame: CheckedFrame, at: nat)
    requires frame.messageType == GAMEPAD_STATE && Applied(s, FrameArrived(frame, at)).Some?
    ensures Applied(s, FrameArrived(frame, at)).value == ReportOf(frame)
  {
  }

  lemma ArmedWatchdog(s: Session, now: uint32)
    requires Inv(s) && Target(s.hid) != NEUTRAL_REPORT
    ensures WatchdogExpired(s, now) <==> Elapsed(now, s.lastDataMs) >= 100
  {
    hide Elapsed;
  }

  lemma ElapsedIs(now: nat, since: nat)
    requires since <= now
    ensures Elapsed(Clock(now), Clock(since)) == (now - since) % 0x1_0000_0000
  {
    ElapsedIsExact(now, since);
  }

  /** So does the lease: a tick after a packet runs it out exactly if 250 ms have passed on the 32-bit clock. */
  lemma LeaseExactly(s: Session, f: Feedback, at: nat, tick: nat)
    requires Reachable(s) && s.link.negotiated && !Busy(s) && !s.rumble.quarantined && Active(f) && at <= tick
    ensures var t := Step(s, RumbleArrived(f, at));
      && (ZeroForced(t, Ticked(tick)) <==> SafetyEvent(t, Ticked(tick)) || (tick - at) % 0x1_0000_0000 >= 250)
      && (ZeroForced(t, Ticked(tick)) ==> Step(t, Ticked(tick)).rumble.desired == ZERO)
  {
    hide Step, Inv, LogInv, SafetyEvent, Reachable, HidQueue.Sound, Rumbles, Elapsed, Timers;
    ReachableStates(s);
    PacketStartsOut(s, f, at);
    PacketIsHeard(s, f, at);
    var t := Step(s, RumbleArrived(f, at));
    ElapsedIs(tick, at);
    ActiveIsLeased(t);
    if ZeroForced(t, Ticked(tick)) {
      RumbleEvolves(t, Ticked(tick));
      ForcedIsZero(t, tick);
    }
  }

  lemma ActiveIsLeased(s: Session)
    requires Within(s, 2)
    ensures s.rumble.leaseArmed && s.link.negotiated && RumbleQueue.Sound(s.rumble)
  {
    hide Rumbles, RumblePayload;
  }

  lemma ForcedIsZero(s: Session, tick: nat)
    requires s.link.negotiated && ZeroForced(s, Ticked(tick)) && RumbleQueue.Sound(s.rumble)
    ensures var r := RumbleBeforeSending(s, Ticked(tick));
      r.desired == ZERO && Transmitted(r, Clock(tick)).desired == ZERO
  {
    hide Elapsed, HidQueue.Sound;
  }
}
