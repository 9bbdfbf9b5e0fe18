/** The state invariant of the session: what every event keeps. */
module SessionSafety {
  import opened Bits
  import opened Protocol
  import opened Receipt
  import opened HidQueue
  import opened RumbleQueue
  import opened SessionModel

  /**
   * The watchdog is armed exactly while the controller heads for a non-neutral report, and only a
   * negotiated, idle session does; without negotiation a zero is waiting to be sent to the host; the two
   * irreversible requests exclude each other.
   */
  predicate Inv(s: Session) {
    && HidQueue.Sound(s.hid)
    && RumbleQueue.Sound(s.rumble)
    && (s.watchdogArmed <==> Target(s.hid) != NEUTRAL_REPORT)
    && (Target(s.hid) != NEUTRAL_REPORT ==> s.link.negotiated && !Busy(s))
    && (!s.link.negotiated ==> s.rumble.pendingIsSafetyZero && !Active(s.rumble.desired))
    && (Busy(s) ==> !Active(s.rumble.desired))
    && !(s.uf2.requested && s.job.requested)
    && (s.uf2.ready || s.uf2.readyPending ==> s.uf2.requested)
  }

  /** Sending and recording touch nothing but the world and the transmit sequence. */
  predicate SameInside(s: Session, t: Session) {
    t == s.(world := t.world, transmitSequence := t.transmitSequence)
  }

  lemma SendingStaysOutside(s: Session, messageType: byte, payload: seq<byte>)
    requires |payload| <= MAX_PAYLOAD
    ensures SameInside(s, SendMessage(s, messageType, payload).session)
  {
    hide EncodeFrame;
  }

  lemma RecordingStaysOutside(s: Session)
    ensures SameInside(s, RecordOnPage(s).session)
  {
    hide WriteReceipt;
  }

  lemma MakeSafeIsSafe(s: Session)
    requires HidQueue.Sound(s.hid) && RumbleQueue.Sound(s.rumble)
    ensures var safe := MakeSafe(s);
      && safe == s.(watchdogArmed := false, hid := safe.hid, rumble := safe.rumble)
      && HidQueue.Sound(safe.hid) && Target(safe.hid) == NEUTRAL_REPORT
      && RumbleQueue.Sound(safe.rumble) && safe.rumble.pendingIsSafetyZero && safe.rumble.desired == ZERO
  {
  }

  lemma QuarantineKeepsInv(s: Session, now: uint32)
    requires Inv(s)
    ensures Inv(BeginQuarantine(s, now))
  {
  }

  lemma HelloKeepsInv(s: Session, frame: CheckedFrame, now: uint32)
    requires Inv(s) && frame.messageType == HELLO
    ensures Inv(OnHello(s, frame, now))
  {
    hide MakeSafe, AnswerHello, Judge;
    AcceptedLength(frame);
    MakeSafeIsSafe(s);
    AnswerKeepsInv(MakeSafe(s).(link := HelloLink(s.link, frame)), now);
  }

  lemma AnswerKeepsInv(s: Session, now: uint32)
    requires Inv(s) && !s.link.negotiated
    ensures Inv(AnswerHello(s, now))
  {
    hide SendMessage, BeginQuarantine;
    var sent := SendMessage(s, HELLO_RESPONSE, [PROTOCOL_VERSION]);
    SendingStaysOutside(s, HELLO_RESPONSE, [PROTOCOL_VERSION]);
    QuarantineKeepsInv(sent.session.(link := s.link.(negotiated := sent.ok, deviceInfoPending := sent.ok)), now);
  }

  lemma Uf2RequestKeepsInv(s: Session, frame: CheckedFrame)
    requires Inv(s) && frame.messageType == ENTER_UF2_BOOTLOADER
    ensures Inv(BeginUf2(s, frame))
  {
    hide SendMessage, RequestIdOf, ErrorPayload, MakeSafe, Judge;
    AcceptedLength(frame);
    SendingStaysOutside(s, ERROR, ErrorPayload(UF2_TRANSITION_BUSY, RequestIdOf(frame)));
    MakeSafeIsSafe(s);
  }

  lemma ReceiptRequestKeepsInv(s: Session, frame: CheckedFrame)
    requires Inv(s) && frame.messageType == RECORD_INSTALL_RECEIPT
    ensures Inv(SendError(s, UF2_TRANSITION_BUSY, RequestIdOf(frame)).session)
    ensures !s.uf2.requested ==> Inv(RecordInstallReceipt(s, frame))
  {
    hide SendMessage, RequestIdOf, ReceiptOf, ErrorPayload, RecordedPayload, MakeSafe, ReadReceipt, Judge;
    AcceptedLength(frame);
    var id := RequestIdOf(frame);
    SendingStaysOutside(s, ERROR, ErrorPayload(UF2_TRANSITION_BUSY, id));
    SendingStaysOutside(s, ERROR, ErrorPayload(INSTALL_RECEIPT_REJECTED, id));
    SendingStaysOutside(s, INSTALL_RECEIPT_RECORDED, RecordedPayload(id, ReceiptOf(frame)));
    MakeSafeIsSafe(s);
  }

  lemma CheckedKeepsInv(s: Session, frame: Frame)
    requires Inv(s)
    ensures Inv(CheckSequence(s, frame))
  {
    hide MakeSafe;
    MakeSafeIsSafe(s);
  }

  lemma FrameKeepsInv(s: Session, frame: CheckedFrame, now: uint32)
    requires Inv(s)
    ensures Inv(OnFrame(s, frame, now))
  {
    hide SendMessage, ReportOf, RequestIdOf, Judge, OnHello, CheckSequence, BeginUf2, RecordInstallReceipt,
         SendError;
    AcceptedLength(frame);
    var heard := s.(link := s.link.(consecutiveErrors := 0, faulted := false));
    if frame.messageType == HELLO {
      HelloKeepsInv(heard, frame, now);
    } else if heard.link.negotiated {
      var checked := CheckSequence(heard, frame);
      CheckedKeepsInv(heard, frame);
      StillNegotiated(heard, frame);
      if frame.messageType == GAMEPAD_STATE && !Busy(checked) {
        LatestWins(checked.hid, ReportOf(frame), false);
      } else if frame.messageType == NEUTRAL && !Busy(checked) {
        LatestWins(checked.hid, NEUTRAL_REPORT, false);
      } else if frame.messageType == PING {
        SendingStaysOutside(checked, PONG, frame.payload[0..4]);
      } else if frame.messageType == ENTER_UF2_BOOTLOADER {
        Uf2RequestKeepsInv(checked, frame);
      } else if frame.messageType == RECORD_INSTALL_RECEIPT {
        ReceiptRequestKeepsInv(checked, frame);
      }
    }
  }

  lemma StillNegotiated(s: Session, frame: Frame)
    ensures CheckSequence(s, frame).link.negotiated == s.link.negotiated
    ensures Busy(CheckSequence(s, frame)) == Busy(s)
  {
  }

  lemma RumbleServiceKeepsInv(s: Session, now: uint32)
    requires Inv(s)
    ensures Inv(ServiceRumble(s, now))
  {
    hide SendMessage, RumblePayload, Timers, Transmitted, RumbleQueue.Sound;
    if s.link.negotiated {
      var timed := Timers(s.rumble, now);
      RumbleStaysSound(s.rumble, ZERO, now);
      TimersOnlyCalm(s.rumble, now);
      RumbleStaysSound(timed, ZERO, now);
      TimersOnlyCalm(timed, now);
      SendingStaysOutside(s.(rumble := timed), RUMBLE, RumblePayload(timed.pendingFeedback));
    }
  }

  lemma TimersOnlyCalm(r: Rumble, now: uint32)
    ensures Active(Timers(r, now).desired) ==> Active(r.desired)
    ensures Transmitted(r, now).desired == r.desired
  {
  }

  lemma ReceiptAnswersKeepInv(s: Session)
    requires Inv(s)
    ensures Inv(AcknowledgeReceipt(s))
    ensures Inv(SendReceiptError(s, INSTALL_RECEIPT_REJECTED))
  {
    hide SendMessage, ReadReceipt, ErrorPayload, RecordedPayload, SendReceiptError;
    ReceiptErrorKeepsInv(s, INSTALL_RECEIPT_REJECTED);
    ReceiptErrorKeepsInv(s, INSTALL_RECEIPT_READBACK_MISMATCH);
    SendingStaysOutside(s, INSTALL_RECEIPT_RECORDED, RecordedPayload(s.job.requestId, s.job.receipt));
  }

  lemma ReceiptErrorKeepsInv(s: Session, code: uint16)
    requires Inv(s)
    ensures Inv(SendReceiptError(s, code))
  {
    hide SendMessage, ErrorPayload;
    SendingStaysOutside(s, ERROR, ErrorPayload(code, s.job.requestId));
  }

  lemma ReceiptServiceKeepsInv(s: Session)
    requires Inv(s)
    ensures Inv(ServiceInstallReceipt(s))
  {
    hide RecordOnPage, ReadReceipt, AcknowledgeReceipt, SendReceiptError;
    RecordingStaysOutside(s);
    ReceiptAnswersKeepInv(s);
    ReceiptAnswersKeepInv(RecordOnPage(s).session);
  }

  lemma WatchdogKeepsInv(s: Session, now: uint32)
    requires Inv(s)
    ensures Inv(ServiceWatchdog(s, now))
  {
    hide MakeSafe;
    MakeSafeIsSafe(s);
  }

  lemma InfoKeepsInv(s: Session)
    requires Inv(s)
    ensures Inv(ServiceDeviceInfo(s))
  {
    hide SendMessage, ReadReceipt, DeviceInfoPayload;
    SendingStaysOutside(s, DEVICE_INFO, DeviceInfoPayload(ReadReceipt(s.world.page)));
  }

  lemma Uf2ServiceKeepsInv(s: Session)
    requires Inv(s)
    ensures Inv(ServiceUf2(s))
  {
    hide SendMessage, ToBytes;
    SendingStaysOutside(s, UF2_BOOTLOADER_READY, ToBytes(s.uf2.requestId, 4));
  }

  lemma TickKeepsInv(s: Session, now: uint32)
    requires Inv(s)
    ensures Inv(Tick(s, now))
  {
    hide ServiceWatchdog, ServiceDeviceInfo, ServiceRumble, ServiceInstallReceipt, ServiceUf2;
    var a := ServiceWatchdog(s, now);
    WatchdogKeepsInv(s, now);
    InfoKeepsInv(a);
    RumbleServiceKeepsInv(ServiceDeviceInfo(a), now);
    ReceiptServiceKeepsInv(ServiceRumble(ServiceDeviceInfo(a), now));
    Uf2ServiceKeepsInv(ServiceInstallReceipt(ServiceRumble(ServiceDeviceInfo(a), now)));
  }

  lemma ResetKeepsInv(s: Session, keepConnection: bool)
    requires HidQueue.Sound(s.hid) && RumbleQueue.Sound(s.rumble)
    ensures Inv(ResetSession(s, keepConnection))
  {
  }

  lemma MountKeepsInv(s: Session, now: uint32)
    requires Inv(s)
    ensures Inv(OnHidMounted(s, now))
  {
  }

  lemma DecodeErrorKeepsInv(s: Session)
    requires Inv(s)
    ensures Inv(OnDecodeError(s))
  {
    hide MakeSafe;
    MakeSafeIsSafe(s);
  }

  lemma SourceKeepsInv(s: Session, f: Feedback, now: uint32)
    requires Inv(s)
    ensures Inv(OnXinputRumble(s, f, now))
  {
    RumbleStaysSound(s.rumble, f, now);
  }

  /** Every event keeps the invariant. */
  lemma StepKeepsInv(s: Session, e: Event)
    requires Inv(s)
    ensures Inv(Step(s, e))
  {
    hide OnFrame, Tick, ResetSession, BeginQuarantine, OnHidMounted, OnDecodeError, OnXinputRumble, MarkSent;
    match e
    case CdcConnected(at) =>
      var up := s.(link := s.link.(cdcConnected := true), lastDataMs := Clock(at));
      ResetKeepsInv(up, true);
      QuarantineKeepsInv(ResetSession(up, true), Clock(at));
    case CdcDisconnected => ResetKeepsInv(s.(link := s.link.(cdcConnected := false)), false);
    case HidMounted(at) => MountKeepsInv(s, Clock(at));
    case FrameArrived(frame, at) => FrameKeepsInv(s, frame, Clock(at));
    case DecodeFailed => DecodeErrorKeepsInv(s);
    case RumbleArrived(feedback, at) => SourceKeepsInv(s, feedback, Clock(at));
    case Ticked(at) => TickKeepsInv(s, Clock(at));
    case HidAccepted => AcceptanceConverges(s.hid);
    case PowerCycled =>
  }
}
