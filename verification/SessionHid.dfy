/** What reaches the endpoint: no report from before a safety event survives it. */
module SessionHid {
  import opened Bits
  import opened Options
  import opened Protocol
  import opened Receipt
  import opened HidQueue
  import opened RumbleQueue
  import opened SessionModel
  import opened SessionSafety
  import opened SessionLog

  /** The frame starts one of the two requests that quieten the device first. */
  predicate StartsRequest(s: Session, frame: CheckedFrame) {
    && !Busy(s)
    && (frame.messageType == ENTER_UF2_BOOTLOADER
        || (frame.messageType == RECORD_INSTALL_RECEIPT && !ReadReceipt(s.world.page).Recorded?))
  }

  /** The events after which the controller must be at rest whatever it was doing. */
  predicate SafetyEvent(s: Session, e: Event) {
    match e
    case CdcConnected(_) => true
    case CdcDisconnected => true
    case HidMounted(_) => true
    case FrameArrived(frame, _) =>
      || frame.messageType == HELLO
      || (s.link.negotiated && (SequenceGap(s, frame) || StartsRequest(s, frame)))
    case DecodeFailed => SaturatingNext(s.link.consecutiveErrors) >= 3
    case RumbleArrived(_, _) => false
    case Ticked(at) => WatchdogExpired(s, Clock(at))
    case HidAccepted => false
    case PowerCycled => true
  }

  /** The report the event brings from the host, if the session takes it. */
  function Applied(s: Session, e: Event): Option<Report> {
    if !e.FrameArrived? || !s.link.negotiated || Busy(s) then None
    else if e.frame.messageType == GAMEPAD_STATE then Some(ReportOf(e.frame))
    else if e.frame.messageType == NEUTRAL then Some(NEUTRAL_REPORT)
    else None
  }

  /** The report queue after an event: a safety neutral first, then what the event brings. */
  function HidAfter(s: Session, e: Event): Hid {
    if e.HidAccepted? then MarkSent(s.hid)
    else if e.PowerCycled? then INITIAL_HID
    else
      var old_ := if e.HidMounted? then s.hid.(lastValid := false) else s.hid;
      var calm := if SafetyEvent(s, e) then QueueReport(old_, NEUTRAL_REPORT, true) else old_;
      if Applied(s, e).Some? then QueueReport(calm, Applied(s, e).value, false) else calm
  }

  lemma SendKeepsHid(s: Session, messageType: byte, payload: seq<byte>)
    requires |payload| <= MAX_PAYLOAD
    ensures SendMessage(s, messageType, payload).session.hid == s.hid
    ensures Hids(SendMessage(s, messageType, payload).session.world.log) == Hids(s.world.log)
  {
    hide EncodeFrame, Hids;
    SendLog(s, messageType, payload);
    HidsAppend(s.world.log, CdcSent(s.transmitSequence, messageType, payload));
  }

  /** The reports the endpoint accepted, in order. */
  function Hids(log: seq<Out>): seq<Report> {
    if log == [] then []
    else Hids(log[..|log| - 1]) + (if log[|log| - 1].HidSent? then [log[|log| - 1].report] else [])
  }

  lemma HidsAppend(log: seq<Out>, out: Out)
    ensures Hids(log + [out]) == Hids(log) + if out.HidSent? then [out.report] else []
  {
    assert (log + [out])[..|log|] == log;
  }

  predicate SameHids(s: Session, t: Session) {
    t.hid == s.hid && Hids(t.world.log) == Hids(s.world.log)
  }

  lemma FrameHid(s: Session, frame: CheckedFrame, at: nat)
    ensures var t := OnFrame(s, frame, Clock(at));
      t.hid == HidAfter(s, FrameArrived(frame, at)) && Hids(t.world.log) == Hids(s.world.log)
  {
    hide SendMessage, ReportOf, RequestIdOf, ReceiptOf, ErrorPayload, RecordedPayload, ReadReceipt, Judge,
         QueueReport, ForceZero, Hids;
    AcceptedLength(frame);
    var heard := s.(link := s.link.(consecutiveErrors := 0, faulted := false));
    if frame.messageType == HELLO {
      SendKeepsHid(MakeSafe(heard).(link := HelloLink(heard.link, frame)), HELLO_RESPONSE, [PROTOCOL_VERSION]);
    } else if heard.link.negotiated {
      var checked := CheckSequence(heard, frame);
      if frame.messageType == PING {
        SendKeepsHid(checked, PONG, frame.payload[0..4]);
      } else if frame.messageType == ENTER_UF2_BOOTLOADER {
        SendKeepsHid(checked, ERROR, ErrorPayload(UF2_TRANSITION_BUSY, RequestIdOf(frame)));
        SafeTwice(s.hid);
      } else if frame.messageType == RECORD_INSTALL_RECEIPT {
        var id := RequestIdOf(frame);
        SendKeepsHid(checked, ERROR, ErrorPayload(UF2_TRANSITION_BUSY, id));
        SendKeepsHid(checked, ERROR, ErrorPayload(INSTALL_RECEIPT_REJECTED, id));
        SendKeepsHid(checked, INSTALL_RECEIPT_RECORDED, RecordedPayload(id, ReceiptOf(frame)));
        SafeTwice(s.hid);
      } else if frame.messageType == NEUTRAL {
      }
    }
  }

  lemma SafeTwice(q: Hid)
    ensures QueueReport(QueueReport(q, NEUTRAL_REPORT, true), NEUTRAL_REPORT, true)
      == QueueReport(q, NEUTRAL_REPORT, true)
  {
  }

  lemma TickHid(s: Session, at: nat)
    ensures var t := Tick(s, Clock(at));
      t.hid == HidAfter(s, Ticked(at)) && Hids(t.world.log) == Hids(s.world.log)
  {
    hide SendMessage, ReadReceipt, DeviceInfoPayload, ServiceRumble, ServiceInstallReceipt, ToBytes, QueueReport,
         ForceZero, Hids;
    var a := ServiceWatchdog(s, Clock(at));
    SendKeepsHid(a, DEVICE_INFO, DeviceInfoPayload(ReadReceipt(a.world.page)));
    var b := ServiceDeviceInfo(a);
    RumbleServiceHid(b, Clock(at));
    var c := ServiceRumble(b, Clock(at));
    ReceiptServiceHid(c);
    var d := ServiceInstallReceipt(c);
    SendKeepsHid(d, UF2_BOOTLOADER_READY, ToBytes(d.uf2.requestId, 4));
  }

  lemma RumbleServiceHid(s: Session, now: uint32)
    ensures SameHids(s, ServiceRumble(s, now))
  {
    hide SendMessage, Timers, Transmitted, RumblePayload, Hids;
    var t := s.(rumble := Timers(s.rumble, now));
    SendKeepsHid(t, RUMBLE, RumblePayload(t.rumble.pendingFeedback));
  }

  lemma ReceiptServiceHid(s: Session)
    ensures SameHids(s, ServiceInstallReceipt(s))
  {
    hide ReadReceipt, RecordOnPage, AcknowledgeReceipt, SendReceiptError, Hids;
    var recorded := RecordOnPage(s).session;
    RecordHid(s);
    AnswersHid(s);
    AnswersHid(recorded);
  }

  lemma RecordHid(s: Session)
    ensures SameHids(s, RecordOnPage(s).session)
  {
    hide WriteReceipt, Hids;
    HidsAppend(s.world.log, ReceiptWrite(s.job.receipt));
  }

  lemma AnswersHid(s: Session)
    ensures SameHids(s, AcknowledgeReceipt(s)) && SameHids(s, SendReceiptError(s, INSTALL_RECEIPT_REJECTED))
  {
    hide SendMessage, ReadReceipt, ErrorPayload, RecordedPayload, Hids;
    SendKeepsHid(s, ERROR, ErrorPayload(INSTALL_RECEIPT_REJECTED, s.job.requestId));
    SendKeepsHid(s, ERROR, ErrorPayload(INSTALL_RECEIPT_READBACK_MISMATCH, s.job.requestId));
    SendKeepsHid(s, INSTALL_RECEIPT_RECORDED, RecordedPayload(s.job.requestId, s.job.receipt));
  }

  lemma IdleAcceptance(q: Hid)
    ensures !q.pending ==> MarkSent(q) == q
  {
  }

  lemma ResetDropsDeferred(q: Hid)
    ensures QueueReport(q.(deferred := false), NEUTRAL_REPORT, true) == QueueReport(q, NEUTRAL_REPORT, true)
  {
  }

  /** The whole session moves its report queue as the closed form says, and the endpoint sees nothing else. */
  lemma HidEvolves(s: Session, e: Event)
    ensures Step(s, e).hid == HidAfter(s, e)
    ensures Hids(Step(s, e).world.log)
         == Hids(s.world.log) + if e.HidAccepted? && s.hid.pending then [s.hid.pendingReport] else []
  {
    hide OnFrame, Tick, QueueReport, MarkSent, ForceZero, FromSource, RumbleQueue.Quarantine, Hids;
    match e
    case CdcConnected(_) => ResetDropsDeferred(s.hid);
    case CdcDisconnected => ResetDropsDeferred(s.hid);
    case HidMounted(_) => HidsAppend(s.world.log, Mounted);
    case FrameArrived(frame, at) => FrameHid(s, frame, at);
    case DecodeFailed =>
    case RumbleArrived(_, _) =>
    case Ticked(at) => TickHid(s, at);
    case HidAccepted =>
      IdleAcceptance(s.hid);
      HidsAppend(s.world.log, HidSent(s.hid.pendingReport));
    case PowerCycled => HidsAppend(s.world.log, Restarted);
  }

  // ----- Latest wins -----

  /** The queue always heads for the latest report that was queued, and acceptances do not change that. */
  lemma TargetIsLatest(s: Session, e: Event)
    requires Inv(s)
    ensures Target(Step(s, e).hid) ==
      if Applied(s, e).Some? then Applied(s, e).value
      else if SafetyEvent(s, e) then NEUTRAL_REPORT
      else Target(s.hid)
  {
    hide Step, Applied, SafetyEvent;
    HidEvolves(s, e);
    if e.HidAccepted? {
      AcceptanceConverges(s.hid);
      NothingApplied(s, e);
    } else if !e.PowerCycled? {
      var old_ := if e.HidMounted? then s.hid.(lastValid := false) else s.hid;
      MountIsSafety(s, e);
      if SafetyEvent(s, e) {
        SafetyNeutral(old_);
      }
      if Applied(s, e).Some? {
        LatestWins(if SafetyEvent(s, e) then QueueReport(old_, NEUTRAL_REPORT, true) else old_,
                   Applied(s, e).value, false);
      }
    } else {
      NothingApplied(s, e);
    }
  }

  lemma NothingApplied(s: Session, e: Event)
    requires e.HidAccepted? || e.PowerCycled?
    ensures Applied(s, e).None? && SafetyEvent(s, e) == e.PowerCycled?
  {
  }

  lemma MountIsSafety(s: Session, e: Event)
    ensures e.HidMounted? ==> SafetyEvent(s, e)
  {
  }

  lemma SafetyNeutral(q: Hid)
    requires q.pendingIsSafety ==> q.pending && q.pendingReport == NEUTRAL_REPORT
    ensures HidQueue.Sound(QueueReport(q, NEUTRAL_REPORT, true))
    ensures Target(QueueReport(q, NEUTRAL_REPORT, true)) == NEUTRAL_REPORT
    ensures QueueReport(q, NEUTRAL_REPORT, true).pendingIsSafety || (q.lastValid && q.last == NEUTRAL_REPORT)
  {
  }

  /** Two acceptances bring the endpoint to the latest report, from any state. */
  lemma TwoAcceptancesDrain(s: Session)
    requires Reachable(s)
    ensures var t := Run(s, [HidAccepted, HidAccepted]);
      !t.hid.pending && !t.hid.deferred && LastHid(t.world.log) == Some(Target(s.hid))
  {
    hide Inv, LogInv, MarkSent, Reachable;
    ReachableStates(s);
    var once := Step(s, HidAccepted);
    assert [HidAccepted, HidAccepted][1..] == [HidAccepted];
    assert Run(s, [HidAccepted, HidAccepted]) == Step(once, HidAccepted);
    StepKeepsInv(s, HidAccepted);
    StepKeepsLog(s, HidAccepted);
    StepKeepsLog(once, HidAccepted);
    IdleAcceptance(s.hid);
    IdleAcceptance(once.hid);
    DrainsTo(s, Step(once, HidAccepted));
  }

  lemma DrainsTo(s: Session, t: Session)
    requires Inv(s) && LogInv(t) && t.hid == MarkSent(MarkSent(s.hid))
    ensures !t.hid.pending && !t.hid.deferred && LastHid(t.world.log) == Some(Target(s.hid))
  {
    hide Orderly, LastHid, LastRumble, RumblePayload;
    AcceptanceConverges(s.hid);
  }

  // ----- No resurrected input -----

  /** What the event brings, as a set. */
  function AppliedBy(s: Session, e: Event): set<Report> {
    if Applied(s, e).Some? then {Applied(s, e).value} else {}
  }

  /** The reports the session takes from the host in a run; frames it ignores bring none. */
  function AppliedIn(s: Session, events: seq<Event>): set<Report>
    decreases |events|
  {
    if events == [] then {} else AppliedBy(s, events[0]) + AppliedIn(Step(s, events[0]), events[1..])
  }

  predicate Harmless(report: Report, applied: set<Report>) {
    report == NEUTRAL_REPORT || report in applied
  }

  /** Nothing waits in the queue but neutral reports and reports applied since. */
  predicate OnlyRecent(q: Hid, applied: set<Report>) {
    && (q.pending ==> Harmless(q.pendingReport, applied))
    && (q.deferred ==> Harmless(q.deferredReport, applied))
  }

  lemma SafetyForgets(s: Session, e: Event)
    requires Inv(s) && SafetyEvent(s, e)
    ensures OnlyRecent(Step(s, e).hid, AppliedBy(s, e))
    ensures Hids(Step(s, e).world.log) == Hids(s.world.log)
  {
    hide Step, Applied, Hids;
    HidEvolves(s, e);
    if e.HidAccepted? || e.PowerCycled? {
      NothingApplied(s, e);
    }
  }

  lemma RecentStaysRecent(s: Session, e: Event, applied: set<Report>)
    requires OnlyRecent(s.hid, applied)
    ensures OnlyRecent(Step(s, e).hid, applied + AppliedBy(s, e))
  {
    hide Step, Applied, SafetyEvent, Hids;
    HidEvolves(s, e);
    if e.HidAccepted? || e.PowerCycled? {
      NothingApplied(s, e);
    }
  }

  lemma {:induction false} OnlyRecentReportsAreSent(s: Session, events: seq<Event>, applied: set<Report>)
    requires OnlyRecent(s.hid, applied)
    ensures var before, after := Hids(s.world.log), Hids(Run(s, events).world.log);
      && before <= after
      && forall i | |before| <= i < |after| :: Harmless(after[i], applied + AppliedIn(s, events))
    decreases |events|
  {
    hide Step, Hids, AppliedBy;
    if events != [] {
      var e := events[0];
      HidEvolves(s, e);
      RecentStaysRecent(s, e, applied);
      OnlyRecentReportsAreSent(Step(s, e), events[1..], applied + AppliedBy(s, e));
    }
  }

  /**
   * No resurrected input: from a safety event on, over any run, every report the endpoint accepts is
   * neutral or was applied by the session with that event or after it; what arrives while the session is
   * not negotiated or is busy is ignored and licenses nothing. As this holds of every run it holds of
   * every beginning of a run, so a report is only ever accepted after it was applied.
   */
  lemma NoResurrectedInput(s: Session, e: Event, events: seq<Event>)
    requires Reachable(s) && SafetyEvent(s, e)
    ensures var before, after := Hids(s.world.log), Hids(Run(s, [e] + events).world.log);
      && before <= after
      && forall i | |before| <= i < |after| :: Harmless(after[i], AppliedIn(s, [e] + events))
  {
    hide Step, Inv, LogInv, Hids, SafetyEvent, OnlyRecent, Reachable, AppliedBy;
    ReachableStates(s);
    SafetyForgets(s, e);
    OnlyRecentReportsAreSent(Step(s, e), events, AppliedBy(s, e));
    assert ([e] + events)[0] == e && ([e] + events)[1..] == events;
  }

  /** A safety neutral waits at the head of the queue, and the endpoint does not hold a neutral report. */
  predicate NeutralIsNext(q: Hid) {
    && HidQueue.Sound(q)
    && q.pendingIsSafety
    && AtEndpoint(q) != Some(NEUTRAL_REPORT)
  }

  lemma NeutralStaysNext(s: Session, e: Event)
    requires Inv(s) && NeutralIsNext(s.hid) && !e.HidAccepted?
    ensures NeutralIsNext(Step(s, e).hid)
    ensures Hids(Step(s, e).world.log) == Hids(s.world.log)
  {
    hide Step, SafetyEvent, Applied, Hids;
    HidEvolves(s, e);
  }

  lemma {:induction false} NextIsNeutral(s: Session, events: seq<Event>)
    requires Inv(s) && NeutralIsNext(s.hid)
    ensures var before, after := Hids(s.world.log), Hids(Run(s, events).world.log);
      |after| > |before| ==> after[|before|] == NEUTRAL_REPORT
    decreases |events|
  {
    hide Step, Inv, Hids, NeutralIsNext;
    if events != [] {
      var e := events[0];
      HidEvolves(s, e);
      StepKeepsInv(s, e);
      if e.HidAccepted? {
        PendingNeutral(s);
        SentGrow(Step(s, e), events[1..]);
      } else {
        NeutralStaysNext(s, e);
        NextIsNeutral(Step(s, e), events[1..]);
      }
    }
  }

  lemma PendingNeutral(s: Session)
    requires Inv(s) && NeutralIsNext(s.hid)
    ensures s.hid.pending && s.hid.pendingReport == NEUTRAL_REPORT
  {
  }

  lemma SentGrow(s: Session, events: seq<Event>)
    ensures Hids(s.world.log) <= Hids(Run(s, events).world.log)
  {
    hide Hids, Step;
    var all := {s.hid.pendingReport, s.hid.deferredReport};
    OnlyRecentReportsAreSent(s, events, all);
  }

  /**
   * The next report the endpoint accepts after a safety event is neutral, unless the last one it accepted
   * since its mount already was.
   */
  lemma NeutralComesFirst(s: Session, e: Event, events: seq<Event>)
    requires Reachable(s) && SafetyEvent(s, e)
    ensures var t := Step(s, e);
      var before, after := Hids(s.world.log), Hids(Run(s, [e] + events).world.log);
      || LastHid(t.world.log) == Some(NEUTRAL_REPORT)
      || (|after| > |before| ==> after[|before|] == NEUTRAL_REPORT)
  {
    hide Step, Inv, LogInv, Hids, SafetyEvent, LastHid, OnlyRecent, Reachable;
    ReachableStates(s);
    var t := Step(s, e);
    SafetyForgets(s, e);
    StepKeepsInv(s, e);
    StepKeepsLog(s, e);
    assert ([e] + events)[0] == e && ([e] + events)[1..] == events;
    SafetyQueuesNeutral(s, e);
    if AtEndpoint(t.hid) != Some(NEUTRAL_REPORT) {
      NextIsNeutral(t, events);
    } else {
      EndpointIsLogged(t);
    }
  }

  lemma EndpointIsLogged(s: Session)
    requires LogInv(s)
    ensures LastHid(s.world.log) == AtEndpoint(s.hid)
  {
    hide Orderly, LastHid, LastRumble, RumblePayload;
  }

  lemma SafetyQueuesNeutral(s: Session, e: Event)
    requires Inv(s) && SafetyEvent(s, e)
    ensures NeutralIsNext(Step(s, e).hid) || AtEndpoint(Step(s, e).hid) == Some(NEUTRAL_REPORT)
  {
    hide Step, Applied;
    HidEvolves(s, e);
    if !e.PowerCycled? {
      SafetyNeutral(if e.HidMounted? then s.hid.(lastValid := false) else s.hid);
    }
  }
}
