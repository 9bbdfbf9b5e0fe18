/** What the host is told to rumble: every forced zero is sent before anything active. */
module SessionRumble {
  import opened Bits
  import opened Protocol
  import opened Receipt
  import opened HidQueue
  import opened RumbleQueue
  import opened SessionModel
  import opened SessionSafety
  import opened SessionLog
  import opened SessionHid

  /** The payloads of the rumble frames sent to the host, in order. */
  function Rumbles(log: seq<Out>): seq<seq<byte>> {
    if log == [] then []
    else
      var last := log[|log| - 1];
      Rumbles(log[..|log| - 1]) + if last.CdcSent? && last.messageType == RUMBLE then [last.payload] else []
  }

  lemma RumblesAppend(log: seq<Out>, out: Out)
    ensures Rumbles(log + [out])
         == Rumbles(log) + if out.CdcSent? && out.messageType == RUMBLE then [out.payload] else []
  {
    assert (log + [out])[..|log|] == log;
  }

  predicate HelloAnswered(s: Session, frame: CheckedFrame)
    requires frame.messageType == HELLO
  {
    AcceptedLength(frame);
    && frame.payload[0] <= PROTOCOL_VERSION <= frame.payload[1]
    && s.world.replies != [] && s.world.replies[0]
  }

  /** The rumble state an event leads to, before a tick sends what is then pending. */
  function RumbleBeforeSending(s: Session, e: Event): Rumble {
    match e
    case CdcConnected(at) => RumbleQueue.Quarantine(ForceZero(s.rumble.(quarantined := false)), Clock(at))
    case CdcDisconnected => ForceZero(s.rumble.(quarantined := false))
    case HidMounted(at) => RumbleQueue.Quarantine(s.rumble, Clock(at))
    case FrameArrived(frame, at) =>
      if frame.messageType == HELLO && HelloAnswered(s, frame)
        then RumbleQueue.Quarantine(ForceZero(s.rumble), Clock(at))
      else if SafetyEvent(s, e) then ForceZero(s.rumble)
      else s.rumble
    case DecodeFailed => if SafetyEvent(s, e) then ForceZero(s.rumble) else s.rumble
    case RumbleArrived(feedback, at) =>
      if s.link.negotiated && !Busy(s) then FromSource(s.rumble, feedback, Clock(at)) else s.rumble
    case Ticked(at) =>
      var calm := if WatchdogExpired(s, Clock(at)) then ForceZero(s.rumble) else s.rumble;
      if s.link.negotiated then Timers(calm, Clock(at)) else calm
    case HidAccepted => s.rumble
    case PowerCycled => INITIAL_RUMBLE
  }

  predicate Untouched(s: Session, t: Session) {
    t.rumble == s.rumble && Rumbles(t.world.log) == Rumbles(s.world.log)
  }

  lemma SendKeepsRumble(s: Session, messageType: byte, payload: seq<byte>)
    requires |payload| <= MAX_PAYLOAD && messageType != RUMBLE
    ensures Untouched(s, SendMessage(s, messageType, payload).session)
    ensures SendMessage(s, messageType, payload).session.link == s.link
  {
    hide EncodeFrame, Rumbles;
    SendLog(s, messageType, payload);
    RumblesAppend(s.world.log, CdcSent(s.transmitSequence, messageType, payload));
  }

  lemma ForcedTwice(r: Rumble)
    ensures ForceZero(ForceZero(r)) == ForceZero(r)
  {
  }

  lemma HelloRumble(s: Session, frame: CheckedFrame, now: uint32)
    requires frame.messageType == HELLO
    ensures var t := OnHello(s, frame, now);
      && Rumbles(t.world.log) == Rumbles(s.world.log)
      && t.rumble == if HelloAnswered(s, frame) then RumbleQueue.Quarantine(ForceZero(s.rumble), now)
                     else ForceZero(s.rumble)
  {
    hide SendMessage, Judge, QueueReport, ForceZero, RumbleQueue.Quarantine, Rumbles;
    AcceptedLength(frame);
    var quiet := MakeSafe(s).(link := HelloLink(s.link, frame));
    SendKeepsRumble(quiet, HELLO_RESPONSE, [PROTOCOL_VERSION]);
    Answered(quiet, HELLO_RESPONSE, [PROTOCOL_VERSION]);
  }

  lemma FrameRumble(s: Session, frame: CheckedFrame, at: nat)
    ensures var t := OnFrame(s, frame, Clock(at));
      t.rumble == RumbleBeforeSending(s, FrameArrived(frame, at)) && Rumbles(t.world.log) == Rumbles(s.world.log)
  {
    hide SendMessage, ReportOf, RequestIdOf, ReceiptOf, ErrorPayload, RecordedPayload, ReadReceipt, Judge,
         QueueReport, ForceZero, RumbleQueue.Quarantine, Rumbles, OnHello;
    AcceptedLength(frame);
    ForcedTwice(s.rumble);
    var heard := s.(link := s.link.(consecutiveErrors := 0, faulted := false));
    if frame.messageType == HELLO {
      HelloRumble(heard, frame, Clock(at));
    } else if heard.link.negotiated {
      var checked := CheckSequence(heard, frame);
      if frame.messageType == PING {
        SendKeepsRumble(checked, PONG, frame.payload[0..4]);
      } else if frame.messageType == ENTER_UF2_BOOTLOADER {
        SendKeepsRumble(checked, ERROR, ErrorPayload(UF2_TRANSITION_BUSY, RequestIdOf(frame)));
      } else if frame.messageType == RECORD_INSTALL_RECEIPT {
        var id := RequestIdOf(frame);
        SendKeepsRumble(checked, ERROR, ErrorPayload(UF2_TRANSITION_BUSY, id));
        SendKeepsRumble(checked, ERROR, ErrorPayload(INSTALL_RECEIPT_REJECTED, id));
        SendKeepsRumble(checked, INSTALL_RECEIPT_RECORDED, RecordedPayload(id, ReceiptOf(frame)));
      }
    }
  }

  lemma Answered(s: Session, messageType: byte, payload: seq<byte>)
    requires |payload| <= MAX_PAYLOAD
    ensures SendMessage(s, messageType, payload).ok == (s.world.replies != [] && s.world.replies[0])
  {
  }

  /** In one tick at most one rumble frame is sent, and it carries what was pending. */
  predicate SentPending(before: seq<seq<byte>>, r: Rumble, t: Session, now: uint32) {
    || (t.rumble == r && Rumbles(t.world.log) == before)
    || (r.pending && t.rumble == Transmitted(r, now)
        && Rumbles(t.world.log) == before + [RumblePayload(r.pendingFeedback)])
  }

  lemma RumbleServiceSends(s: Session, now: uint32)
    ensures SentPending(Rumbles(s.world.log), if s.link.negotiated then Timers(s.rumble, now) else s.rumble,
                        ServiceRumble(s, now), now)
  {
    hide SendMessage, Timers, Transmitted, RumblePayload, Rumbles;
    var t := s.(rumble := Timers(s.rumble, now));
    var payload := RumblePayload(t.rumble.pendingFeedback);
    SendLog(t, RUMBLE, payload);
    RumblesAppend(s.world.log, CdcSent(s.transmitSequence, RUMBLE, payload));
  }

  lemma ReceiptServiceRumble(s: Session)
    ensures Untouched(s, ServiceInstallReceipt(s))
  {
    hide ReadReceipt, RecordOnPage, AcknowledgeReceipt, SendReceiptError, Rumbles;
    RecordRumble(s);
    AnswersRumble(s);
    AnswersRumble(RecordOnPage(s).session);
  }

  lemma RecordRumble(s: Session)
    ensures Untouched(s, RecordOnPage(s).session)
  {
    hide WriteReceipt, Rumbles;
    RumblesAppend(s.world.log, ReceiptWrite(s.job.receipt));
  }

  lemma AnswersRumble(s: Session)
    ensures Untouched(s, AcknowledgeReceipt(s)) && Untouched(s, SendReceiptError(s, INSTALL_RECEIPT_REJECTED))
  {
    hide SendMessage, ReadReceipt, ErrorPayload, RecordedPayload, Rumbles;
    SendKeepsRumble(s, ERROR, ErrorPayload(INSTALL_RECEIPT_REJECTED, s.job.requestId));
    SendKeepsRumble(s, ERROR, ErrorPayload(INSTALL_RECEIPT_READBACK_MISMATCH, s.job.requestId));
    SendKeepsRumble(s, INSTALL_RECEIPT_RECORDED, RecordedPayload(s.job.requestId, s.job.receipt));
  }

  lemma TickRumble(s: Session, at: nat)
    ensures SentPending(Rumbles(s.world.log), RumbleBeforeSending(s, Ticked(at)), Tick(s, Clock(at)), Clock(at))
  {
    hide SendMessage, ReadReceipt, DeviceInfoPayload, ServiceRumble, ServiceInstallReceipt, ToBytes, QueueReport,
         ForceZero, Timers, Transmitted, RumblePayload, Rumbles;
    var a := ServiceWatchdog(s, Clock(at));
    SendKeepsRumble(a, DEVICE_INFO, DeviceInfoPayload(ReadReceipt(a.world.page)));
    var b := ServiceDeviceInfo(a);
    RumbleServiceSends(b, Clock(at));
    var c := ServiceRumble(b, Clock(at));
    ReceiptServiceRumble(c);
    var d := ServiceInstallReceipt(c);
    SendKeepsRumble(d, UF2_BOOTLOADER_READY, ToBytes(d.uf2.requestId, 4));
  }

  /** The whole session moves its rumble state as the closed form says; only a tick sends rumble frames. */
  lemma RumbleEvolves(s: Session, e: Event)
    ensures !e.Ticked? ==>
      && Step(s, e).rumble == RumbleBeforeSending(s, e)
      && Rumbles(Step(s, e).world.log) == Rumbles(s.world.log)
    ensures e.Ticked? ==> SentPending(Rumbles(s.world.log), RumbleBeforeSending(s, e), Step(s, e), Clock(e.at))
  {
    hide OnFrame, Tick, QueueReport, MarkSent, ForceZero, FromSource, RumbleQueue.Quarantine, Rumbles, SentPending;
    match e
    case CdcConnected(_) =>
    case CdcDisconnected =>
    case HidMounted(_) => RumblesAppend(s.world.log, Mounted);
    case FrameArrived(frame, at) => FrameRumble(s, frame, at);
    case DecodeFailed =>
    case RumbleArrived(_, _) =>
    case Ticked(at) => TickRumble(s, at);
    case HidAccepted => RumblesAppend(s.world.log, HidSent(s.hid.pendingReport));
    case PowerCycled => RumblesAppend(s.world.log, Restarted);
  }

  // ----- A forced zero comes first -----

  /** The events that force the host's motors off. */
  predicate ZeroForced(s: Session, e: Event) {
    || SafetyEvent(s, e)
    || (e.RumbleArrived? && s.link.negotiated && !Busy(s) && !Active(e.feedback))
    || (e.Ticked? && s.link.negotiated && LeaseExpired(s.rumble, Clock(e.at)))
  }

  lemma ForcingForces(s: Session, e: Event)
    requires ZeroForced(s, e) && RumbleQueue.Sound(s.rumble)
    ensures RumbleBeforeSending(s, e).pendingIsSafetyZero && RumbleBeforeSending(s, e).pendingFeedback == ZERO
    ensures RumbleBeforeSending(s, e).pending
  {
    hide ReadReceipt;
  }

  lemma ZeroStaysPending(s: Session, e: Event)
    requires s.rumble.pendingIsSafetyZero && RumbleQueue.Sound(s.rumble)
    ensures var r := RumbleBeforeSending(s, e); r.pendingIsSafetyZero && r.pending && r.pendingFeedback == ZERO
  {
    hide ReadReceipt, SafetyEvent;
  }

  lemma {:induction false} ZeroIsNext(s: Session, events: seq<Event>)
    requires Inv(s) && s.rumble.pendingIsSafetyZero
    ensures var before, after := Rumbles(s.world.log), Rumbles(Run(s, events).world.log);
      && before <= after
      && (|after| > |before| ==> after[|before|] == RumblePayload(ZERO))
    decreases |events|
  {
    hide Step, Rumbles, RumblePayload, Transmitted, RumbleBeforeSending;
    if events != [] {
      var e := events[0];
      RumbleEvolves(s, e);
      StepKeepsInv(s, e);
      ZeroStaysPending(s, e);
      var t := Step(s, e);
      if t.rumble == RumbleBeforeSending(s, e) && Rumbles(t.world.log) == Rumbles(s.world.log) {
        ZeroIsNext(t, events[1..]);
      } else {
        RumblesGrow(t, events[1..]);
      }
    }
  }

  lemma {:induction false} RumblesGrow(s: Session, events: seq<Event>)
    ensures Rumbles(s.world.log) <= Rumbles(Run(s, events).world.log)
    decreases |events|
  {
    hide Step, Rumbles, RumblePayload, Transmitted, RumbleBeforeSending;
    if events != [] {
      RumbleEvolves(s, events[0]);
      RumblesGrow(Step(s, events[0]), events[1..]);
    }
  }

  /**
   * Whatever forces the motors off, the next rumble frame the host is sent, in that event or later, is
   * the zero; anything active comes after it.
   */
  lemma ForcedZeroComesFirst(s: Session, e: Event, events: seq<Event>)
    requires Reachable(s) && ZeroForced(s, e)
    ensures var before, after := Rumbles(s.world.log), Rumbles(Run(s, [e] + events).world.log);
      && before <= after
      && (|after| > |before| ==> after[|before|] == RumblePayload(ZERO))
  {
    hide Step, Rumbles, RumblePayload, Transmitted, RumbleBeforeSending, ZeroForced, Reachable;
    ReachableStates(s);
    RumbleEvolves(s, e);
    ForcingForces(s, e);
    StepKeepsInv(s, e);
    assert ([e] + events)[0] == e && ([e] + events)[1..] == events;
    var t := Step(s, e);
    if t.rumble == RumbleBeforeSending(s, e) && Rumbles(t.world.log) == Rumbles(s.world.log) {
      ZeroIsNext(t, events);
    } else {
      RumblesGrow(t, events);
    }
  }

  /**
   * The rumble state in every reachable state: lease and refresh are armed exactly while the desired
   * rumble is active, and quarantine, a missing handshake and the two request phases each keep it at zero.
   */
  lemma RumbleAtRest(s: Session)
    requires Reachable(s)
    ensures s.rumble.leaseArmed <==> Active(s.rumble.desired)
    ensures s.rumble.refreshArmed <==> Active(s.rumble.desired)
    ensures s.rumble.quarantined || !s.link.negotiated || s.uf2.requested || s.job.requested
      ==> s.rumble.desired == ZERO
  {
    ReachableStates(s);
  }
}
