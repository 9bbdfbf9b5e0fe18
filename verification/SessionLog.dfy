/** What the log of a run can look like: what the endpoint and the host get to see, in order. */
module SessionLog {
  import opened Bits
  import opened Options
  import opened Protocol
  import opened Receipt
  import opened HidQueue
  import opened RumbleQueue
  import opened SessionModel
  import opened SessionSafety

  /** The last report the endpoint accepted since the latest mount. */
  function LastHid(log: seq<Out>): Option<Report> {
    if log == [] then None
    else match log[|log| - 1]
      case HidSent(report) => Some(report)
      case Mounted => None
      case Restarted => None
      case _ => LastHid(log[..|log| - 1])
  }

  /** The payload of the last rumble frame sent since power on. */
  function LastRumble(log: seq<Out>): Option<seq<byte>> {
    if log == [] then None
    else match log[|log| - 1]
      case CdcSent(_, messageType, payload) =>
        if messageType == RUMBLE then Some(payload) else LastRumble(log[..|log| - 1])
      case Restarted => None
      case _ => LastRumble(log[..|log| - 1])
  }

  /** Steps that cannot be taken back: announcing the boot loader, and writing the receipt. */
  predicate Irreversible(out: Out) {
    out.ReceiptWrite? || (out.CdcSent? && out.messageType == UF2_BOOTLOADER_READY)
  }

  /** The controller is at rest and the motors are off, as far as host and endpoint have been told. */
  predicate Quiet(log: seq<Out>) {
    LastHid(log) == Some(NEUTRAL_REPORT) && LastRumble(log) == Some(RumblePayload(ZERO))
  }

  predicate Fits(before: seq<Out>, out: Out) {
    && (out.HidSent? ==> LastHid(before) != Some(out.report))
    && (Irreversible(out) ==> Quiet(before))
  }

  predicate Orderly(log: seq<Out>) {
    log == [] || (Orderly(log[..|log| - 1]) && Fits(log[..|log| - 1], log[|log| - 1]))
  }

  /** The report the endpoint is known to hold. */
  function AtEndpoint(q: Hid): Option<Report> {
    if q.lastValid then Some(q.last) else None
  }

  /** The feedback the host is known to have, once nothing is left to send. */
  function AtHost(r: Rumble): Option<Feedback> {
    if r.pending then None else Some(r.desired)
  }

  /** The log is orderly and ends as the session believes it does. */
  predicate Faithful(log: seq<Out>, atEndpoint: Option<Report>, atHost: Option<Feedback>) {
    && Orderly(log)
    && LastHid(log) == atEndpoint
    && (atHost.Some? ==> LastRumble(log) == Some(RumblePayload(atHost.value)))
  }

  predicate LogInv(s: Session) {
    Faithful(s.world.log, AtEndpoint(s.hid), AtHost(s.rumble))
  }

  lemma PendingIsFaithful(log: seq<Out>, atEndpoint: Option<Report>, atHost: Option<Feedback>)
    requires Faithful(log, atEndpoint, atHost)
    ensures Faithful(log, atEndpoint, None)
  {
  }

  lemma Appended(log: seq<Out>, out: Out)
    ensures Orderly(log + [out]) <==> Orderly(log) && Fits(log, out)
    ensures LastHid(log + [out]) ==
      if out.HidSent? then Some(out.report) else if out.Mounted? || out.Restarted? then None else LastHid(log)
    ensures LastRumble(log + [out]) ==
      if out.CdcSent? && out.messageType == RUMBLE then Some(out.payload)
      else if out.Restarted? then None else LastRumble(log)
  {
    assert (log + [out])[..|log|] == log;
  }

  lemma SendLog(s: Session, messageType: byte, payload: seq<byte>)
    requires |payload| <= MAX_PAYLOAD
    ensures var sent := SendMessage(s, messageType, payload);
      && SameInside(s, sent.session)
      && sent.session.world.page == s.world.page
      && sent.session.world.log ==
         if sent.ok then s.world.log + [CdcSent(s.transmitSequence, messageType, payload)] else s.world.log
  {
    hide EncodeFrame;
  }

  lemma SendKeepsLog(s: Session, messageType: byte, payload: seq<byte>)
    requires |payload| <= MAX_PAYLOAD && LogInv(s)
    requires messageType != RUMBLE
    requires messageType == UF2_BOOTLOADER_READY ==> Quiet(s.world.log)
    ensures SameInside(s, SendMessage(s, messageType, payload).session)
    ensures LogInv(SendMessage(s, messageType, payload).session)
  {
    hide SendMessage, RumblePayload, Orderly, LastHid, LastRumble, Quiet;
    SendLog(s, messageType, payload);
    Appended(s.world.log, CdcSent(s.transmitSequence, messageType, payload));
  }

  /** With both queues drained in a busy phase, the log is quiet. */
  lemma DrainedIsQuiet(s: Session)
    requires Inv(s) && LogInv(s) && Busy(s) && !s.hid.pending && !s.rumble.pending
    ensures Quiet(s.world.log)
  {
    hide Orderly, LastHid, LastRumble, RumblePayload;
    assert s.rumble.desired == ZERO;
  }

  lemma RumbleServiceKeepsLog(s: Session, now: uint32)
    requires Inv(s) && LogInv(s)
    ensures LogInv(ServiceRumble(s, now))
  {
    hide SendMessage, RumblePayload, Orderly, LastHid, LastRumble, Timers, Transmitted, Quiet;
    var t := s.(rumble := Timers(s.rumble, now));
    RumbleStaysSound(s.rumble, ZERO, now);
    OnlySendingDrains(s.rumble, now);
    OnlySendingDrains(t.rumble, now);
    SendLog(t, RUMBLE, RumblePayload(t.rumble.pendingFeedback));
    Appended(s.world.log, CdcSent(t.transmitSequence, RUMBLE, RumblePayload(t.rumble.pendingFeedback)));
  }

  lemma RecordKeepsLog(s: Session)
    requires LogInv(s) && Quiet(s.world.log)
    ensures LogInv(RecordOnPage(s).session)
  {
    hide WriteReceipt, Orderly, LastHid, LastRumble, Quiet, RumblePayload;
    Appended(s.world.log, ReceiptWrite(s.job.receipt));
  }

  lemma ReceiptAnswersKeepLog(s: Session)
    requires LogInv(s)
    ensures LogInv(AcknowledgeReceipt(s))
    ensures LogInv(SendReceiptError(s, INSTALL_RECEIPT_REJECTED))
  {
    hide SendMessage, ReadReceipt, ErrorPayload, RecordedPayload, Faithful;
    SendKeepsLog(s, ERROR, ErrorPayload(INSTALL_RECEIPT_REJECTED, s.job.requestId));
    SendKeepsLog(s, ERROR, ErrorPayload(INSTALL_RECEIPT_READBACK_MISMATCH, s.job.requestId));
    SendKeepsLog(s, INSTALL_RECEIPT_RECORDED, RecordedPayload(s.job.requestId, s.job.receipt));
  }

  lemma ReceiptServiceKeepsLog(s: Session)
    requires Inv(s) && LogInv(s)
    ensures LogInv(ServiceInstallReceipt(s))
  {
    hide RecordOnPage, ReadReceipt, AcknowledgeReceipt, SendReceiptError, Faithful, Quiet;
    if s.job.requested && !s.hid.pending && !s.rumble.pending {
      DrainedIsQuiet(s);
      RecordKeepsLog(s);
      RecordingStaysOutside(s);
      ReceiptAnswersKeepLog(s);
      ReceiptAnswersKeepLog(RecordOnPage(s).session);
    }
  }

  lemma Uf2ServiceKeepsLog(s: Session)
    requires Inv(s) && LogInv(s)
    ensures LogInv(ServiceUf2(s))
  {
    hide SendMessage, ToBytes, Faithful, Quiet;
    if s.uf2.requested && !s.hid.pending && !s.rumble.pending {
      DrainedIsQuiet(s);
      SendKeepsLog(s, UF2_BOOTLOADER_READY, ToBytes(s.uf2.requestId, 4));
    }
  }

  lemma SafeKeepsLog(s: Session)
    requires LogInv(s)
    ensures LogInv(MakeSafe(s)) && MakeSafe(s).rumble.pending
    ensures MakeSafe(s).world == s.world && MakeSafe(s).transmitSequence == s.transmitSequence
  {
    hide Faithful;
    PendingIsFaithful(s.world.log, AtEndpoint(s.hid), AtHost(s.rumble));
  }

  lemma WatchdogKeepsLog(s: Session, now: uint32)
    requires LogInv(s)
    ensures LogInv(ServiceWatchdog(s, now))
  {
    hide Faithful, MakeSafe;
    SafeKeepsLog(s);
  }

  lemma InfoKeepsLog(s: Session)
    requires LogInv(s)
    ensures LogInv(ServiceDeviceInfo(s))
  {
    hide SendMessage, ReadReceipt, DeviceInfoPayload, Faithful;
    SendKeepsLog(s, DEVICE_INFO, DeviceInfoPayload(ReadReceipt(s.world.page)));
  }

  lemma TickKeepsLog(s: Session, now: uint32)
    requires Inv(s) && LogInv(s)
    ensures LogInv(Tick(s, now))
  {
    hide ServiceWatchdog, ServiceDeviceInfo, ServiceRumble, ServiceInstallReceipt, ServiceUf2, LogInv, Inv;
    var a := ServiceWatchdog(s, now);
    WatchdogKeepsLog(s, now);
    WatchdogKeepsInv(s, now);
    var b := ServiceDeviceInfo(a);
    InfoKeepsLog(a);
    InfoKeepsInv(a);
    var c := ServiceRumble(b, now);
    RumbleServiceKeepsLog(b, now);
    RumbleServiceKeepsInv(b, now);
    ReceiptServiceKeepsLog(c);
    ReceiptServiceKeepsInv(c);
    Uf2ServiceKeepsLog(ServiceInstallReceipt(c));
  }

  lemma HelloKeepsLog(s: Session, frame: CheckedFrame, now: uint32)
    requires LogInv(s) && frame.messageType == HELLO
    ensures LogInv(OnHello(s, frame, now))
  {
    hide MakeSafe, Judge, AnswerHello, Faithful;
    AcceptedLength(frame);
    SafeKeepsLog(s);
    AnswerKeepsLog(MakeSafe(s).(link := HelloLink(s.link, frame)), now);
  }

  lemma AnswerKeepsLog(s: Session, now: uint32)
    requires LogInv(s) && s.rumble.pending
    ensures LogInv(AnswerHello(s, now))
  {
    hide SendMessage, Faithful;
    SendKeepsLog(s, HELLO_RESPONSE, [PROTOCOL_VERSION]);
  }

  lemma Uf2RequestKeepsLog(s: Session, frame: CheckedFrame)
    requires LogInv(s) && frame.messageType == ENTER_UF2_BOOTLOADER
    ensures LogInv(BeginUf2(s, frame))
  {
    hide SendMessage, RequestIdOf, ErrorPayload, MakeSafe, Faithful, Judge;
    AcceptedLength(frame);
    SendKeepsLog(s, ERROR, ErrorPayload(UF2_TRANSITION_BUSY, RequestIdOf(frame)));
    SafeKeepsLog(s);
  }

  lemma ReceiptRequestKeepsLog(s: Session, frame: CheckedFrame)
    requires LogInv(s) && frame.messageType == RECORD_INSTALL_RECEIPT
    ensures LogInv(SendError(s, UF2_TRANSITION_BUSY, RequestIdOf(frame)).session)
    ensures LogInv(RecordInstallReceipt(s, frame))
  {
    hide SendMessage, RequestIdOf, ReceiptOf, ErrorPayload, RecordedPayload, MakeSafe, ReadReceipt, Faithful, Judge;
    AcceptedLength(frame);
    var id := RequestIdOf(frame);
    SendKeepsLog(s, ERROR, ErrorPayload(UF2_TRANSITION_BUSY, id));
    SendKeepsLog(s, ERROR, ErrorPayload(INSTALL_RECEIPT_REJECTED, id));
    SendKeepsLog(s, INSTALL_RECEIPT_RECORDED, RecordedPayload(id, ReceiptOf(frame)));
    SafeKeepsLog(s);
  }

  lemma FrameKeepsLog(s: Session, frame: CheckedFrame, now: uint32)
    requires LogInv(s)
    ensures LogInv(OnFrame(s, frame, now))
  {
    hide SendMessage, ReportOf, RequestIdOf, Judge, Faithful, MakeSafe, BeginUf2, RecordInstallReceipt, OnHello,
         SendError;
    AcceptedLength(frame);
    var heard := s.(link := s.link.(consecutiveErrors := 0, faulted := false));
    if frame.messageType == HELLO {
      HelloKeepsLog(heard, frame, now);
    } else if heard.link.negotiated {
      SafeKeepsLog(heard);
      var checked := CheckSequence(heard, frame);
      if frame.messageType == PING {
        SendKeepsLog(checked, PONG, frame.payload[0..4]);
      } else if frame.messageType == ENTER_UF2_BOOTLOADER {
        Uf2RequestKeepsLog(checked, frame);
      } else if frame.messageType == RECORD_INSTALL_RECEIPT {
        ReceiptRequestKeepsLog(checked, frame);
      }
    }
  }

  lemma AcceptanceKeepsLog(s: Session)
    requires Inv(s) && LogInv(s)
    ensures LogInv(OnHidAccepted(s))
  {
    hide Orderly, LastHid, LastRumble, RumblePayload, Quiet;
    Appended(s.world.log, HidSent(s.hid.pendingReport));
  }

  lemma BoundariesKeepLog(s: Session, now: uint32)
    requires LogInv(s)
    ensures LogInv(OnHidMounted(s, now)) && LogInv(PowerOn(Logged(s, Restarted).world))
  {
    hide Orderly, LastHid, LastRumble, RumblePayload, Quiet;
    Appended(s.world.log, Mounted);
    Appended(s.world.log, Restarted);
  }

  lemma ResetKeepsLog(s: Session, keepConnection: bool, now: uint32)
    requires LogInv(s)
    ensures LogInv(ResetSession(s, keepConnection)) && LogInv(BeginQuarantine(ResetSession(s, keepConnection), now))
  {
    hide Faithful;
    PendingIsFaithful(s.world.log, AtEndpoint(s.hid), AtHost(s.rumble));
  }

  lemma SourceKeepsLog(s: Session, f: Feedback, now: uint32)
    requires Inv(s) && LogInv(s)
    ensures LogInv(OnXinputRumble(s, f, now))
  {
    hide Faithful;
    PendingIsFaithful(s.world.log, AtEndpoint(s.hid), AtHost(s.rumble));
  }

  lemma StepKeepsLog(s: Session, e: Event)
    requires Inv(s) && LogInv(s)
    ensures LogInv(Step(s, e))
  {
    hide Faithful, Inv, OnFrame, Tick, ResetSession, BeginQuarantine, MakeSafe, OnHidMounted, OnXinputRumble,
         OnHidAccepted, PowerOn;
    match e
    case CdcConnected(at) =>
      ResetKeepsLog(s.(link := s.link.(cdcConnected := true), lastDataMs := Clock(at)), true, Clock(at));
    case CdcDisconnected => ResetKeepsLog(s.(link := s.link.(cdcConnected := false)), false, 0);
    case HidMounted(at) => BoundariesKeepLog(s, Clock(at));
    case FrameArrived(frame, at) => FrameKeepsLog(s, frame, Clock(at));
    case DecodeFailed => SafeKeepsLog(s);
    case RumbleArrived(feedback, at) => SourceKeepsLog(s, feedback, Clock(at));
    case Ticked(at) => TickKeepsLog(s, Clock(at));
    case HidAccepted => AcceptanceKeepsLog(s);
    case PowerCycled => BoundariesKeepLog(s, 0);
  }

  lemma {:induction false} RunKeepsLog(s: Session, events: seq<Event>)
    requires Inv(s) && LogInv(s)
    ensures Inv(Run(s, events)) && LogInv(Run(s, events))
    decreases |events|
  {
    hide Step, Inv, LogInv;
    if events != [] {
      StepKeepsInv(s, events[0]);
      StepKeepsLog(s, events[0]);
      RunKeepsLog(Step(s, events[0]), events[1..]);
    }
  }

  lemma {:induction false} OrderlyAtEach(log: seq<Out>, i: nat)
    requires Orderly(log) && i < |log|
    ensures Fits(log[..i], log[i])
    decreases |log|
  {
    if i < |log| - 1 {
      OrderlyAtEach(log[..|log| - 1], i);
      assert log[..|log| - 1][..i] == log[..i];
    }
  }

  // ----- Over whole runs -----

  ghost predicate Reachable(s: Session) {
    exists world: World, events: seq<Event> :: world.log == [] && s == Run(PowerOn(world), events)
  }

  lemma ReachableStates(s: Session)
    requires Reachable(s)
    ensures Inv(s) && LogInv(s)
  {
    hide Run, Inv, LogInv;
    var world: World, events: seq<Event> :| world.log == [] && s == Run(PowerOn(world), events);
    FreshDevice(world);
    RunKeepsLog(PowerOn(world), events);
  }

  lemma FreshDevice(world: World)
    requires world.log == []
    ensures Inv(PowerOn(world)) && LogInv(PowerOn(world))
  {
  }

  /**
   * Quiet before what cannot be taken back: in every run, before the boot loader is announced and before
   * the receipt is written, the last report the endpoint accepted since its mount is neutral and the last
   * rumble frame sent is zero.
   */
  lemma QuietBeforeIrreversible(s: Session, i: nat)
    requires Reachable(s) && i < |s.world.log| && Irreversible(s.world.log[i])
    ensures LastHid(s.world.log[..i]) == Some(NEUTRAL_REPORT)
    ensures LastRumble(s.world.log[..i]) == Some(RumblePayload(ZERO))
  {
    ReachableStates(s);
    OrderlyAtEach(s.world.log, i);
  }

  /** Between mounts, no report the endpoint accepts repeats the one before it. */
  lemma NoRepeatedReport(s: Session, i: nat)
    requires Reachable(s) && i < |s.world.log| && s.world.log[i].HidSent?
    ensures LastHid(s.world.log[..i]) != Some(s.world.log[i].report)
  {
    ReachableStates(s);
    OrderlyAtEach(s.world.log, i);
  }

  // ----- Only a negotiated session takes irreversible steps -----

  function Irreversibles(log: seq<Out>): seq<Out> {
    if log == [] then []
    else Irreversibles(log[..|log| - 1]) + if Irreversible(log[|log| - 1]) then [log[|log| - 1]] else []
  }

  lemma IrreversiblesAppend(log: seq<Out>, out: Out)
    ensures Irreversibles(log + [out]) == Irreversibles(log) + if Irreversible(out) then [out] else []
  {
    assert (log + [out])[..|log|] == log;
  }

  lemma SendIsReversible(s: Session, messageType: byte, payload: seq<byte>)
    requires |payload| <= MAX_PAYLOAD && messageType != UF2_BOOTLOADER_READY
    ensures Irreversibles(SendMessage(s, messageType, payload).session.world.log) == Irreversibles(s.world.log)
  {
    hide EncodeFrame, Irreversibles;
    SendLog(s, messageType, payload);
    IrreversiblesAppend(s.world.log, CdcSent(s.transmitSequence, messageType, payload));
  }

  lemma FrameIsReversible(s: Session, frame: CheckedFrame, now: uint32)
    ensures Irreversibles(OnFrame(s, frame, now).world.log) == Irreversibles(s.world.log)
  {
    hide SendMessage, ReportOf, RequestIdOf, ReceiptOf, ErrorPayload, RecordedPayload, ReadReceipt, Judge,
         QueueReport, ForceZero, RumbleQueue.Quarantine, Irreversibles;
    AcceptedLength(frame);
    var heard := s.(link := s.link.(consecutiveErrors := 0, faulted := false));
    if frame.messageType == HELLO {
      SendIsReversible(MakeSafe(heard).(link := HelloLink(heard.link, frame)), HELLO_RESPONSE, [PROTOCOL_VERSION]);
    } else if heard.link.negotiated {
      var checked := CheckSequence(heard, frame);
      if frame.messageType == PING {
        SendIsReversible(checked, PONG, frame.payload[0..4]);
      } else if frame.messageType == ENTER_UF2_BOOTLOADER {
        SendIsReversible(checked, ERROR, ErrorPayload(UF2_TRANSITION_BUSY, RequestIdOf(frame)));
      } else if frame.messageType == RECORD_INSTALL_RECEIPT {
        var id := RequestIdOf(frame);
        SendIsReversible(checked, ERROR, ErrorPayload(UF2_TRANSITION_BUSY, id));
        SendIsReversible(checked, ERROR, ErrorPayload(INSTALL_RECEIPT_REJECTED, id));
        SendIsReversible(checked, INSTALL_RECEIPT_RECORDED, RecordedPayload(id, ReceiptOf(frame)));
      }
    }
  }

  /** Without a handshake a tick does nothing at all, although two of its services never ask for one. */
  lemma IdleWithoutHandshake(s: Session, now: uint32)
    requires Inv(s) && !s.link.negotiated
    ensures Tick(s, now) == s
  {
  }

  /**
   * Only a tick of a negotiated session announces the boot loader or writes the receipt.
   */
  lemma IrreversibleNeedsHandshake(s: Session, e: Event)
    requires Reachable(s) && !(e.Ticked? && s.link.negotiated)
    ensures Irreversibles(Step(s, e).world.log) == Irreversibles(s.world.log)
  {
    hide OnFrame, Tick, QueueReport, MarkSent, ForceZero, FromSource, RumbleQueue.Quarantine, Irreversibles, Inv,
         Reachable;
    ReachableStates(s);
    match e
    case FrameArrived(frame, at) => FrameIsReversible(s, frame, Clock(at));
    case Ticked(at) => IdleWithoutHandshake(s, Clock(at));
    case HidMounted(_) => IrreversiblesAppend(s.world.log, Mounted);
    case HidAccepted => IrreversiblesAppend(s.world.log, HidSent(s.hid.pendingReport));
    case PowerCycled => IrreversiblesAppend(s.world.log, Restarted);
    case _ =>
  }

  /** The two irreversible requests are never in progress together. */
  lemma RequestsExclude(s: Session)
    requires Reachable(s)
    ensures !(s.uf2.requested && s.job.requested)
  {
    ReachableStates(s);
  }
}
