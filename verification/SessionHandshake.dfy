/** The handshake and what hangs on it: when a session is open, what greets the host, and what counts as a gap. */
module SessionHandshake {
  import opened Bits
  import opened Options
  import opened Protocol
  import opened Receipt
  import opened HidQueue
  import opened RumbleQueue
  import opened SessionModel
  import opened SessionSafety
  import opened SessionLog
  import opened SessionHid
  import opened SessionPayloads
  import opened SessionProgress

  /** The CDC queue takes the next frame. */
  predicate Takes(w: World) {
    w.replies != [] && w.replies[0]
  }

  predicate Hello(e: Event) {
    e.FrameArrived? && e.frame.messageType == HELLO
  }

  /** The greeting offers the protocol version, and the answer gets through. */
  predicate Greeted(s: Session, frame: CheckedFrame)
    requires frame.messageType == HELLO
  {
    AcceptedLength(frame);
    frame.payload[0] <= 1 <= frame.payload[1] && Takes(s.world)
  }

  predicate EndsConnection(e: Event) {
    e.CdcConnected? || e.CdcDisconnected? || e.PowerCycled?
  }

  // ----- Greeting -----

  /** A greeting is answered exactly if it offers the version and the answer gets through; this opens the session. */
  lemma GreetingIsAnswered(s: Session, frame: CheckedFrame, at: nat)
    requires frame.messageType == HELLO
    ensures var t := Step(s, FrameArrived(frame, at));
      && t.link.negotiated == t.link.deviceInfoPending == Greeted(s, frame)
      && t.world.log
         == s.world.log + (if Greeted(s, frame) then [CdcSent(s.transmitSequence, HELLO_RESPONSE, [1])] else [])
      && t.uf2 == s.uf2 && t.job == s.job
  {
    hide EncodeFrame, QueueReport, ForceZero, RumbleQueue.Quarantine, Judge;
    AcceptedLength(frame);
  }

  lemma SendKeepsLink(s: Session, messageType: byte, payload: seq<byte>)
    requires |payload| <= MAX_PAYLOAD
    ensures SendMessage(s, messageType, payload).session.link == s.link
    ensures SendMessage(s, messageType, payload).session.job == s.job
    ensures SendMessage(s, messageType, payload).session.uf2 == s.uf2
  {
    hide EncodeFrame;
  }

  /** The link after a frame other than a greeting. */
  lemma FrameLink(s: Session, frame: CheckedFrame, now: uint32)
    requires frame.messageType != HELLO
    ensures OnFrame(s, frame, now).link == s.link.(
      consecutiveErrors := 0, faulted := false,
      sequenceValid := s.link.sequenceValid || s.link.negotiated,
      expectedSequence := if s.link.negotiated then Next16(frame.sequence) else s.link.expectedSequence)
  {
    hide SendMessage, ReportOf, RequestIdOf, ReceiptOf, ErrorPayload, RecordedPayload, ReadReceipt, Judge,
         QueueReport, ForceZero, RumbleQueue.Quarantine;
    AcceptedLength(frame);
    var heard := s.(link := s.link.(consecutiveErrors := 0, faulted := false));
    if heard.link.negotiated {
      var checked := CheckSequence(heard, frame);
      if frame.messageType == PING {
        SendKeepsLink(checked, PONG, frame.payload[0..4]);
      } else if frame.messageType == ENTER_UF2_BOOTLOADER {
        SendKeepsLink(checked, ERROR, ErrorPayload(UF2_TRANSITION_BUSY, RequestIdOf(frame)));
      } else if frame.messageType == RECORD_INSTALL_RECEIPT {
        var id := RequestIdOf(frame);
        SendKeepsLink(checked, ERROR, ErrorPayload(UF2_TRANSITION_BUSY, id));
        SendKeepsLink(checked, ERROR, ErrorPayload(INSTALL_RECEIPT_REJECTED, id));
        SendKeepsLink(checked, INSTALL_RECEIPT_RECORDED, RecordedPayload(id, ReceiptOf(frame)));
      }
    }
  }

  lemma ReceiptServiceLink(s: Session)
    ensures ServiceInstallReceipt(s).link == s.link
  {
    hide SendMessage, ReadReceipt, ErrorPayload, RecordedPayload, WriteReceipt;
    SendKeepsLink(s, ERROR, ErrorPayload(INSTALL_RECEIPT_REJECTED, s.job.requestId));
    var r := RecordOnPage(s).session;
    SendKeepsLink(r, ERROR, ErrorPayload(INSTALL_RECEIPT_REJECTED, s.job.requestId));
    SendKeepsLink(s, ERROR, ErrorPayload(INSTALL_RECEIPT_READBACK_MISMATCH, s.job.requestId));
    SendKeepsLink(r, ERROR, ErrorPayload(INSTALL_RECEIPT_READBACK_MISMATCH, s.job.requestId));
    SendKeepsLink(s, INSTALL_RECEIPT_RECORDED, RecordedPayload(s.job.requestId, s.job.receipt));
    SendKeepsLink(r, INSTALL_RECEIPT_RECORDED, RecordedPayload(s.job.requestId, s.job.receipt));
  }

  /** The link after a tick: only the fault light and the owed information can have changed. */
  lemma TickLink(s: Session, now: uint32)
    ensures Tick(s, now).link == s.link.(
      faulted := s.link.faulted || WatchdogExpired(s, now),
      deviceInfoPending := s.link.deviceInfoPending && !(s.link.negotiated && Takes(s.world)))
  {
    hide SendMessage, ReadReceipt, DeviceInfoPayload, RumblePayload, ToBytes, Timers, Transmitted, QueueReport,
         ForceZero, ServiceInstallReceipt;
    var a := ServiceWatchdog(s, now);
    SendKeepsLink(a, DEVICE_INFO, DeviceInfoPayload(ReadReceipt(a.world.page)));
    InfoSend(a);
    var b := ServiceDeviceInfo(a);
    var t := b.(rumble := Timers(b.rumble, now));
    SendKeepsLink(t, RUMBLE, RumblePayload(t.rumble.pendingFeedback));
    var c := ServiceRumble(b, now);
    ReceiptServiceLink(c);
    var d := ServiceInstallReceipt(c);
    SendKeepsLink(d, UF2_BOOTLOADER_READY, ToBytes(d.uf2.requestId, 4));
  }

  lemma InfoSend(s: Session)
    ensures SendMessage(s, DEVICE_INFO, DeviceInfoPayload(ReadReceipt(s.world.page))).ok == Takes(s.world)
  {
    hide EncodeFrame, DeviceInfoPayload, ReadReceipt;
  }

  // ----- When the session is open -----

  /** A session is opened by nothing but an answered greeting, and closed by nothing but what is listed here. */
  lemma OpenExactly(s: Session, e: Event)
    ensures Step(s, e).link.negotiated
       <==> if Hello(e) then Greeted(s, e.frame)
            else s.link.negotiated && !EndsConnection(e) && !(e.DecodeFailed? && s.link.consecutiveErrors >= 2)
  {
    hide OnFrame, Tick, QueueReport, MarkSent, ForceZero, FromSource, RumbleQueue.Quarantine, Greeted;
    if Hello(e) {
      GreetingIsAnswered(s, e.frame, e.at);
    } else if e.FrameArrived? {
      FrameLink(s, e.frame, Clock(e.at));
    } else if e.Ticked? {
      TickLink(s, Clock(e.at));
    }
  }

  /** How many decode errors came since the last frame or the last reset. */
  function Streak(events: seq<Event>): nat {
    if events == [] then 0
    else
      var e := events[|events| - 1];
      if e.DecodeFailed? then Streak(events[..|events| - 1]) + 1
      else if e.FrameArrived? || EndsConnection(e) then 0
      else Streak(events[..|events| - 1])
  }

  lemma ErrorsStep(s: Session, e: Event)
    ensures Step(s, e).link.consecutiveErrors
         == if e.DecodeFailed? then (if s.link.consecutiveErrors < 255 then s.link.consecutiveErrors + 1 else 255)
            else if e.FrameArrived? || EndsConnection(e) then 0
            else s.link.consecutiveErrors
  {
    hide Tick, QueueReport, MarkSent, ForceZero, FromSource, RumbleQueue.Quarantine, SendMessage;
    if e.FrameArrived? {
      hide OnHello, Dispatch;
      if e.frame.messageType == HELLO {
        HelloLinkErrors(s.(link := s.link.(consecutiveErrors := 0, faulted := false)), e.frame, Clock(e.at));
      } else {
        FrameLink(s, e.frame, Clock(e.at));
      }
    } else if e.Ticked? {
      TickLink(s, Clock(e.at));
    }
  }

  lemma HelloLinkErrors(s: Session, frame: CheckedFrame, now: uint32)
    requires frame.messageType == HELLO
    ensures var t := OnHello(s, frame, now);
      && t.link.consecutiveErrors == s.link.consecutiveErrors && t.link.faulted == s.link.faulted
      && t.link.sequenceValid && t.link.expectedSequence == Next16(frame.sequence)
  {
    hide SendMessage, QueueReport, ForceZero, RumbleQueue.Quarantine, Judge;
    AcceptedLength(frame);
    SendKeepsLink(MakeSafe(s).(link := HelloLink(s.link, frame)), HELLO_RESPONSE, [PROTOCOL_VERSION]);
  }

  lemma {:induction false} StreakIsCounted(world: World, events: seq<Event>)
    ensures Run(PowerOn(world), events).link.consecutiveErrors == if Streak(events) < 255 then Streak(events) else 255
    decreases |events|
  {
    hide Step;
    if events != [] {
      var n := |events| - 1;
      StreakIsCounted(world, events[..n]);
      assert events == events[..n] + [events[n]];
      RunAppend(PowerOn(world), events[..n], events[n]);
      ErrorsStep(Run(PowerOn(world), events[..n]), events[n]);
    }
  }

  /** In every run a decode error closes the session exactly if it is the third since the last frame or reset. */
  lemma ThirdErrorCloses(world: World, events: seq<Event>)
    ensures Run(PowerOn(world), events + [DecodeFailed]).link.negotiated
       <==> Run(PowerOn(world), events).link.negotiated && Streak(events) < 2
  {
    hide Step;
    StreakIsCounted(world, events);
    RunAppend(PowerOn(world), events, DecodeFailed);
    OpenExactly(Run(PowerOn(world), events), DecodeFailed);
  }

  /** The fault light: on with the third error and an expired watchdog, off with a frame or a reset. */
  lemma FaultIsShown(s: Session, e: Event)
    requires Inv(s)
    ensures Step(s, e).link.faulted
       <==> if e.FrameArrived? || EndsConnection(e) then false
            else
              || s.link.faulted
              || (e.DecodeFailed? && s.link.consecutiveErrors >= 2)
              || (e.Ticked? && Target(s.hid) != NEUTRAL_REPORT && Elapsed(Clock(e.at), s.lastDataMs) >= 100)
  {
    hide OnFrame, Tick, QueueReport, MarkSent, ForceZero, FromSource, RumbleQueue.Quarantine, HidQueue.Sound,
         RumbleQueue.Sound;
    if Hello(e) {
      HelloFault(s, e.frame, Clock(e.at));
    } else if e.FrameArrived? {
      FrameLink(s, e.frame, Clock(e.at));
    } else if e.Ticked? {
      TickLink(s, Clock(e.at));
    }
  }

  lemma HelloFault(s: Session, frame: CheckedFrame, now: uint32)
    requires frame.messageType == HELLO
    ensures !OnFrame(s, frame, now).link.faulted
    ensures var l := OnFrame(s, frame, now).link; l.sequenceValid && l.expectedSequence == Next16(frame.sequence)
  {
    hide OnHello;
    HelloLinkErrors(s.(link := s.link.(consecutiveErrors := 0, faulted := false)), frame, now);
  }

  // ----- The sequence of the host -----

  /** No event in the run is a frame. */
  predicate Frameless(events: seq<Event>) {
    forall e <- events :: !e.FrameArrived?
  }

  lemma SequenceStays(s: Session, e: Event)
    requires !e.FrameArrived? && Step(s, e).link.negotiated
    ensures s.link.negotiated
    ensures Step(s, e).link.expectedSequence == s.link.expectedSequence
    ensures Step(s, e).link.sequenceValid == s.link.sequenceValid
  {
    hide Tick, QueueReport, MarkSent, ForceZero, FromSource, RumbleQueue.Quarantine;
    if e.Ticked? {
      TickLink(s, Clock(e.at));
    }
  }

  lemma {:induction false} SequenceStaysOver(s: Session, events: seq<Event>)
    requires Frameless(events) && Run(s, events).link.negotiated
    ensures Run(s, events).link.expectedSequence == s.link.expectedSequence
    ensures Run(s, events).link.sequenceValid == s.link.sequenceValid
    ensures s.link.negotiated
    decreases |events|
  {
    hide Step;
    if events != [] {
      assert events[0] in events && forall e <- events[1..] :: e in events;
      SequenceStaysOver(Step(s, events[0]), events[1..]);
      SequenceStays(s, events[0]);
    }
  }

  /**
   * In an open session a frame makes the device safe for its number exactly if that is not one more, modulo
   * 2^16, than the number of the frame before it; whatever happened between the two that was not a frame.
   */
  lemma GapsExactly(s: Session, first: CheckedFrame, at: nat, between: seq<Event>, next: CheckedFrame, later: nat)
    requires Frameless(between)
    requires first.messageType == HELLO || s.link.negotiated
    requires var t := Run(Step(s, FrameArrived(first, at)), between); t.link.negotiated && !StartsRequest(t, next)
    requires next.messageType != HELLO
    ensures SafetyEvent(Run(Step(s, FrameArrived(first, at)), between), FrameArrived(next, later))
       <==> next.sequence != (first.sequence + 1) % 0x1_0000
  {
    hide OnFrame, StartsRequest;
    var t := Step(s, FrameArrived(first, at));
    if first.messageType == HELLO {
      HelloFault(s, first, Clock(at));
    } else {
      FrameLink(s, first, Clock(at));
    }
    SequenceStaysOver(t, between);
  }

  /** The device's own numbers start over with a new connection and with power, and only then. */
  lemma NumberingRestarts(s: Session, e: Event)
    ensures e.CdcDisconnected? || e.PowerCycled? ==> Step(s, e).transmitSequence == 0
    ensures e.CdcConnected? ==> Step(s, e).transmitSequence == s.transmitSequence
  {
    hide QueueReport, ForceZero;
  }

  // ----- The device information -----

  /** The payloads of the device information sent, in order. */
  function Infos(log: seq<Out>): seq<seq<byte>> {
    if log == [] then []
    else
      var last := log[|log| - 1];
      Infos(log[..|log| - 1]) + if last.CdcSent? && last.messageType == DEVICE_INFO then [last.payload] else []
  }

  lemma InfosAppend(log: seq<Out>, out: Out)
    ensures Infos(log + [out])
         == Infos(log) + if out.CdcSent? && out.messageType == DEVICE_INFO then [out.payload] else []
  {
    assert (log + [out])[..|log|] == log;
  }

  predicate SameInfos(s: Session, t: Session) {
    Infos(t.world.log) == Infos(s.world.log)
  }

  lemma SendKeepsInfos(s: Session, messageType: byte, payload: seq<byte>)
    requires |payload| <= MAX_PAYLOAD && messageType != DEVICE_INFO
    ensures SameInfos(s, SendMessage(s, messageType, payload).session)
  {
    hide EncodeFrame, Infos;
    SendLog(s, messageType, payload);
    InfosAppend(s.world.log, CdcSent(s.transmitSequence, messageType, payload));
  }

  lemma FrameKeepsInfos(s: Session, frame: CheckedFrame, now: uint32)
    ensures SameInfos(s, OnFrame(s, frame, now))
  {
    hide SendMessage, ReportOf, RequestIdOf, ReceiptOf, ErrorPayload, RecordedPayload, ReadReceipt, Judge,
         QueueReport, ForceZero, RumbleQueue.Quarantine, Infos;
    AcceptedLength(frame);
    var heard := s.(link := s.link.(consecutiveErrors := 0, faulted := false));
    if frame.messageType == HELLO {
      SendKeepsInfos(MakeSafe(heard).(link := HelloLink(heard.link, frame)), HELLO_RESPONSE, [PROTOCOL_VERSION]);
    } else if heard.link.negotiated {
      var checked := CheckSequence(heard, frame);
      if frame.messageType == PING {
        SendKeepsInfos(checked, PONG, frame.payload[0..4]);
      } else if frame.messageType == ENTER_UF2_BOOTLOADER {
        SendKeepsInfos(checked, ERROR, ErrorPayload(UF2_TRANSITION_BUSY, RequestIdOf(frame)));
      } else if frame.messageType == RECORD_INSTALL_RECEIPT {
        var id := RequestIdOf(frame);
        SendKeepsInfos(checked, ERROR, ErrorPayload(UF2_TRANSITION_BUSY, id));
        SendKeepsInfos(checked, ERROR, ErrorPayload(INSTALL_RECEIPT_REJECTED, id));
        SendKeepsInfos(checked, INSTALL_RECEIPT_RECORDED, RecordedPayload(id, ReceiptOf(frame)));
      }
    }
  }

  lemma ServicesKeepInfos(s: Session, now: uint32)
    ensures SameInfos(s, ServiceRumble(s, now)) && SameInfos(s, ServiceUf2(s))
    ensures SameInfos(s, AcknowledgeReceipt(s)) && SameInfos(s, SendReceiptError(s, INSTALL_RECEIPT_REJECTED))
    ensures SameInfos(s, RecordOnPage(s).session)
  {
    hide SendMessage, ReadReceipt, RumblePayload, ToBytes, Timers, Transmitted, Infos, ErrorPayload, RecordedPayload,
         WriteReceipt;
    var t := s.(rumble := Timers(s.rumble, now));
    SendKeepsInfos(t, RUMBLE, RumblePayload(t.rumble.pendingFeedback));
    SendKeepsInfos(s, UF2_BOOTLOADER_READY, ToBytes(s.uf2.requestId, 4));
    SendKeepsInfos(s, ERROR, ErrorPayload(INSTALL_RECEIPT_REJECTED, s.job.requestId));
    SendKeepsInfos(s, ERROR, ErrorPayload(INSTALL_RECEIPT_READBACK_MISMATCH, s.job.requestId));
    SendKeepsInfos(s, INSTALL_RECEIPT_RECORDED, RecordedPayload(s.job.requestId, s.job.receipt));
    InfosAppend(s.world.log, ReceiptWrite(s.job.receipt));
  }

  lemma ReceiptServiceKeepsInfos(s: Session)
    ensures SameInfos(s, ServiceInstallReceipt(s))
  {
    hide ReadReceipt, RecordOnPage, AcknowledgeReceipt, SendReceiptError, Infos;
    ServicesKeepInfos(s, 0);
    ServicesKeepInfos(RecordOnPage(s).session, 0);
  }

  lemma TickInfos(s: Session, now: uint32)
    ensures Infos(Tick(s, now).world.log)
         == Infos(s.world.log)
            + if s.link.negotiated && s.link.deviceInfoPending && Takes(s.world)
              then [DeviceInfoPayload(ReadReceipt(s.world.page))] else []
  {
    hide SendMessage, ReadReceipt, DeviceInfoPayload, ServiceRumble, ServiceInstallReceipt, ServiceUf2, QueueReport,
         ForceZero, Infos;
    var a := ServiceWatchdog(s, now);
    var payload := DeviceInfoPayload(ReadReceipt(s.world.page));
    SendLog(a, DEVICE_INFO, payload);
    InfoSend(a);
    InfosAppend(s.world.log, CdcSent(a.transmitSequence, DEVICE_INFO, payload));
    var b := ServiceDeviceInfo(a);
    ServicesKeepInfos(b, now);
    var c := ServiceRumble(b, now);
    ReceiptServiceKeepsInfos(c);
    ServicesKeepInfos(ServiceInstallReceipt(c), now);
  }

  /**
   * The device introduces itself once per greeting: an answered greeting leaves its information owed, the
   * first tick that gets a frame through pays it, with what the page then reads, and nothing else sends it.
   */
  lemma InfoIsPaidOnce(s: Session, e: Event)
    ensures var pays := e.Ticked? && s.link.negotiated && s.link.deviceInfoPending && Takes(s.world);
      var t := Step(s, e);
      && Infos(t.world.log)
         == Infos(s.world.log) + (if pays then [DeviceInfoPayload(ReadReceipt(s.world.page))] else [])
      && (t.link.deviceInfoPending
          <==> if Hello(e) then Greeted(s, e.frame) else s.link.deviceInfoPending && !EndsConnection(e) && !pays)
  {
    hide OnFrame, Tick, QueueReport, MarkSent, ForceZero, FromSource, RumbleQueue.Quarantine, Greeted, Infos,
         DeviceInfoPayload, ReadReceipt;
    match e
    case CdcConnected(_) =>
    case CdcDisconnected =>
    case HidMounted(_) => InfosAppend(s.world.log, Mounted);
    case FrameArrived(frame, at) =>
      FrameKeepsInfos(s, frame, Clock(at));
      if frame.messageType == HELLO {
        GreetingIsAnswered(s, frame, at);
      } else {
        FrameLink(s, frame, Clock(at));
      }
    case DecodeFailed =>
    case RumbleArrived(_, _) =>
    case Ticked(at) =>
      TickInfos(s, Clock(at));
      TickLink(s, Clock(at));
    case HidAccepted => InfosAppend(s.world.log, HidSent(s.hid.pendingReport));
    case PowerCycled => InfosAppend(s.world.log, Restarted);
  }

  /** Over a run without a greeting at most what was owed is sent. */
  lemma {:induction false} InfoIsNotRepeated(s: Session, events: seq<Event>)
    requires forall e <- events :: !Hello(e)
    ensures |Infos(Run(s, events).world.log)| <= |Infos(s.world.log)| + if s.link.deviceInfoPending then 1 else 0
    decreases |events|
  {
    hide Step, Infos, DeviceInfoPayload, ReadReceipt, Hello;
    if events != [] {
      assert events[0] in events && forall e <- events[1..] :: e in events;
      InfoIsPaidOnce(s, events[0]);
      InfoIsNotRepeated(Step(s, events[0]), events[1..]);
    }
  }

  // ----- From power on -----

  /**
   * From power on: a greeting that is answered, a gamepad frame numbered one higher, and two acceptances
   * bring the report to the endpoint, and the frame is not taken for anything unsafe.
   */
  lemma FirstInput(world: World, hello: CheckedFrame, r: Report, reserved: uint16, flags: byte, at: nat, later: nat)
    requires world.log == [] && hello.messageType == HELLO && Greeted(PowerOn(world), hello) && Playable(r)
    ensures var input := GamepadFrame(Next16(hello.sequence), r, reserved, flags);
      && Accepted(input)
      && var open := Run(PowerOn(world), [FrameArrived(hello, at)]);
         && open.link.negotiated && !SafetyEvent(open, FrameArrived(input, later))
         && LastHid(Run(open, [FrameArrived(input, later), HidAccepted, HidAccepted]).world.log) == Some(r)
  {
    hide Accepted, Step, Run, LastHid, Reachable, Greeted, GamepadPayload, Playable, ReportOf, SafetyEvent,
         StartsRequest, Judge;
    var input := GamepadFrame(Next16(hello.sequence), r, reserved, flags);
    GamepadRoundTrip(Next16(hello.sequence), r, reserved, flags);
    InputAfterGreeting(world, hello, at, input, later);
    OneStep(PowerOn(world), FrameArrived(hello, at));
    var open := Step(PowerOn(world), FrameArrived(hello, at));
    InputReachesEndpoint(open, Next16(hello.sequence), r, reserved, flags, later);
  }

  lemma InputAfterGreeting(world: World, hello: CheckedFrame, at: nat, input: CheckedFrame, later: nat)
    requires world.log == [] && hello.messageType == HELLO && Greeted(PowerOn(world), hello)
    requires input.messageType == GAMEPAD_STATE && input.sequence == Next16(hello.sequence)
    ensures var open := Step(PowerOn(world), FrameArrived(hello, at));
      Reachable(open) && open.link.negotiated && !Busy(open) && !SafetyEvent(open, FrameArrived(input, later))
  {
    hide Step, Run, Reachable, Greeted, SafetyEvent, StartsRequest;
    var s, e := PowerOn(world), FrameArrived(hello, at);
    ReachesItself(world);
    StepStaysReachable(s, e);
    GreetingIsAnswered(s, hello, at);
    NewSessionIsIdle(world, hello, at);
    NoSteps(Step(s, e));
    InputStartsNothing(Step(s, e), input);
    GapsExactly(s, hello, at, [], input, later);
  }

  lemma NoSteps(s: Session)
    ensures Run(s, []) == s && Frameless([])
  {
  }

  lemma InputStartsNothing(s: Session, frame: CheckedFrame)
    requires frame.messageType == GAMEPAD_STATE
    ensures !StartsRequest(s, frame)
  {
  }

  lemma NewSessionIsIdle(world: World, hello: CheckedFrame, at: nat)
    requires hello.messageType == HELLO
    ensures !Busy(Step(PowerOn(world), FrameArrived(hello, at)))
  {
    hide Step;
    GreetingIsAnswered(PowerOn(world), hello, at);
  }

  lemma ReachesItself(world: World)
    requires world.log == []
    ensures Reachable(PowerOn(world))
  {
    assert Run(PowerOn(world), []) == PowerOn(world);
  }
}
