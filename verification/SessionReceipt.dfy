/** The session together with the flash page: a device acknowledges one receipt, for ever. */
module SessionReceipt {
  import opened Bits
  import opened Protocol
  import opened Receipt
  import opened HidQueue
  import opened RumbleQueue
  import opened SessionModel
  import opened SessionLog

  /** The payloads of the acknowledgements sent, in order. */
  function Acks(log: seq<Out>): seq<seq<byte>> {
    if log == [] then []
    else
      var last := log[|log| - 1];
      Acks(log[..|log| - 1])
      + if last.CdcSent? && last.messageType == INSTALL_RECEIPT_RECORDED then [last.payload] else []
  }

  lemma AcksAppend(log: seq<Out>, out: Out)
    ensures Acks(log + [out])
         == Acks(log) + if out.CdcSent? && out.messageType == INSTALL_RECEIPT_RECORDED then [out.payload] else []
  {
    assert (log + [out])[..|log|] == log;
  }

  /** The acknowledgement carries the very receipt the page reads. */
  predicate Honest(payload: seq<byte>, status: Status) {
    |payload| == 29 && status.Recorded? && payload[4..] == ReceiptBytes(status.receipt)
  }

  predicate AllHonest(acks: seq<seq<byte>>, status: Status) {
    forall i | 0 <= i < |acks| :: Honest(acks[i], status)
  }

  predicate AckInv(s: Session) {
    AllHonest(Acks(s.world.log), ReadReceipt(s.world.page))
  }

  predicate SameAcks(s: Session, t: Session) {
    t.world.page == s.world.page && Acks(t.world.log) == Acks(s.world.log)
  }

  lemma SendKeepsAcks(s: Session, messageType: byte, payload: seq<byte>)
    requires |payload| <= MAX_PAYLOAD && messageType != INSTALL_RECEIPT_RECORDED
    ensures SameAcks(s, SendMessage(s, messageType, payload).session)
  {
    hide EncodeFrame, Acks;
    SendLog(s, messageType, payload);
    AcksAppend(s.world.log, CdcSent(s.transmitSequence, messageType, payload));
  }

  lemma AcknowledgeHonestly(s: Session, requestId: uint32, receipt: ReceiptData)
    requires AckInv(s) && ReadReceipt(s.world.page) == Recorded(receipt)
    ensures var t := SendMessage(s, INSTALL_RECEIPT_RECORDED, RecordedPayload(requestId, receipt)).session;
      AckInv(t) && t.world.page == s.world.page
  {
    hide SendMessage, Acks, ReadReceipt, ReceiptBytes;
    var payload := RecordedPayload(requestId, receipt);
    SendLog(s, INSTALL_RECEIPT_RECORDED, payload);
    AcksAppend(s.world.log, CdcSent(s.transmitSequence, INSTALL_RECEIPT_RECORDED, payload));
  }

  /** Once there is something acknowledged, or recorded at all, the page no longer changes. */
  predicate PageSettled(s: Session, t: Session) {
    !ReadReceipt(s.world.page).Pending? ==> t.world.page == s.world.page
  }

  lemma RecordKeepsAcks(s: Session)
    requires AckInv(s)
    ensures AckInv(RecordOnPage(s).session) && PageSettled(s, RecordOnPage(s).session)
  {
    hide WriteReceipt, Acks, ReadReceipt;
    AcksAppend(s.world.log, ReceiptWrite(s.job.receipt));
    if !ReadReceipt(s.world.page).Pending? {
      NotPendingIsUntouched(s.world.page, s.job.receipt,
                            if s.world.supplies == [] then Steady else s.world.supplies[0]);
    }
  }

  lemma AnswersKeepAcks(s: Session)
    requires AckInv(s)
    ensures AckInv(AcknowledgeReceipt(s)) && AckInv(SendReceiptError(s, INSTALL_RECEIPT_REJECTED))
    ensures AcknowledgeReceipt(s).world.page == SendReceiptError(s, INSTALL_RECEIPT_REJECTED).world.page == s.world.page
  {
    hide SendMessage, ReadReceipt, ErrorPayload, RecordedPayload, Acks;
    SendKeepsAcks(s, ERROR, ErrorPayload(INSTALL_RECEIPT_REJECTED, s.job.requestId));
    SendKeepsAcks(s, ERROR, ErrorPayload(INSTALL_RECEIPT_READBACK_MISMATCH, s.job.requestId));
    if ReadReceipt(s.world.page) == Recorded(s.job.receipt) {
      AcknowledgeHonestly(s, s.job.requestId, s.job.receipt);
    }
  }

  lemma ReceiptServiceKeepsAcks(s: Session)
    requires AckInv(s)
    ensures AckInv(ServiceInstallReceipt(s)) && PageSettled(s, ServiceInstallReceipt(s))
  {
    hide ReadReceipt, RecordOnPage, AcknowledgeReceipt, SendReceiptError, AckInv;
    RecordKeepsAcks(s);
    AnswersKeepAcks(s);
    AnswersKeepAcks(RecordOnPage(s).session);
  }

  lemma OthersKeepAcks(s: Session, now: uint32)
    ensures SameAcks(s, ServiceWatchdog(s, now)) && SameAcks(s, ServiceDeviceInfo(s))
    ensures SameAcks(s, ServiceRumble(s, now)) && SameAcks(s, ServiceUf2(s))
  {
    hide SendMessage, ReadReceipt, DeviceInfoPayload, RumblePayload, ToBytes, Timers, Transmitted, Acks, QueueReport,
         ForceZero;
    SendKeepsAcks(s, DEVICE_INFO, DeviceInfoPayload(ReadReceipt(s.world.page)));
    var t := s.(rumble := Timers(s.rumble, now));
    SendKeepsAcks(t, RUMBLE, RumblePayload(t.rumble.pendingFeedback));
    SendKeepsAcks(s, UF2_BOOTLOADER_READY, ToBytes(s.uf2.requestId, 4));
  }

  lemma TickKeepsAcks(s: Session, now: uint32)
    requires AckInv(s)
    ensures AckInv(Tick(s, now)) && PageSettled(s, Tick(s, now))
  {
    hide ServiceWatchdog, ServiceDeviceInfo, ServiceRumble, ServiceInstallReceipt, ServiceUf2, Acks, ReadReceipt;
    var a := ServiceWatchdog(s, now);
    OthersKeepAcks(s, now);
    var b := ServiceDeviceInfo(a);
    OthersKeepAcks(a, now);
    var c := ServiceRumble(b, now);
    OthersKeepAcks(b, now);
    ReceiptServiceKeepsAcks(c);
    OthersKeepAcks(ServiceInstallReceipt(c), now);
  }

  lemma FrameKeepsAcks(s: Session, frame: CheckedFrame, now: uint32)
    requires AckInv(s)
    ensures AckInv(OnFrame(s, frame, now)) && OnFrame(s, frame, now).world.page == s.world.page
  {
    hide SendMessage, ReportOf, RequestIdOf, ReceiptOf, ErrorPayload, RecordedPayload, ReadReceipt, Judge,
         QueueReport, ForceZero, RumbleQueue.Quarantine, Acks;
    AcceptedLength(frame);
    var heard := s.(link := s.link.(consecutiveErrors := 0, faulted := false));
    if frame.messageType == HELLO {
      SendKeepsAcks(MakeSafe(heard).(link := HelloLink(heard.link, frame)), HELLO_RESPONSE, [PROTOCOL_VERSION]);
    } else if heard.link.negotiated {
      var checked := CheckSequence(heard, frame);
      if frame.messageType == PING {
        SendKeepsAcks(checked, PONG, frame.payload[0..4]);
      } else if frame.messageType == ENTER_UF2_BOOTLOADER {
        SendKeepsAcks(checked, ERROR, ErrorPayload(UF2_TRANSITION_BUSY, RequestIdOf(frame)));
      } else if frame.messageType == RECORD_INSTALL_RECEIPT {
        var id := RequestIdOf(frame);
        SendKeepsAcks(checked, ERROR, ErrorPayload(UF2_TRANSITION_BUSY, id));
        SendKeepsAcks(checked, ERROR, ErrorPayload(INSTALL_RECEIPT_REJECTED, id));
        if ReadReceipt(s.world.page) == Recorded(ReceiptOf(frame)) {
          AcknowledgeHonestly(checked, id, ReceiptOf(frame));
        }
      }
    }
  }

  lemma StepKeepsAcks(s: Session, e: Event)
    requires AckInv(s)
    ensures AckInv(Step(s, e)) && PageSettled(s, Step(s, e))
  {
    hide OnFrame, Tick, QueueReport, MarkSent, ForceZero, FromSource, RumbleQueue.Quarantine, Acks, ReadReceipt;
    match e
    case CdcConnected(_) =>
    case CdcDisconnected =>
    case HidMounted(_) => AcksAppend(s.world.log, Mounted);
    case FrameArrived(frame, at) => FrameKeepsAcks(s, frame, Clock(at));
    case DecodeFailed =>
    case RumbleArrived(_, _) =>
    case Ticked(at) => TickKeepsAcks(s, Clock(at));
    case HidAccepted => AcksAppend(s.world.log, HidSent(s.hid.pendingReport));
    case PowerCycled => AcksAppend(s.world.log, Restarted);
  }

  lemma {:induction false} RunKeepsAcks(s: Session, events: seq<Event>)
    requires AckInv(s)
    ensures AckInv(Run(s, events)) && PageSettled(s, Run(s, events))
    decreases |events|
  {
    hide Step, AckInv, ReadReceipt;
    if events != [] {
      StepKeepsAcks(s, events[0]);
      RunKeepsAcks(Step(s, events[0]), events[1..]);
    }
  }

  lemma {:induction false} ReceiptBytesInjective(a: ReceiptData, b: ReceiptData)
    requires ReceiptBytes(a) == ReceiptBytes(b)
    ensures a == b
  {
    hide ToBytes, FromBytes;
    EightBytes();
    BytesRoundTrip(a.installedAt, 8);
    BytesRoundTrip(b.installedAt, 8);
    assert ReceiptBytes(a)[..8] == ToBytes(a.installedAt, 8) && ReceiptBytes(b)[..8] == ToBytes(b.installedAt, 8);
    assert ReceiptBytes(a)[8..24] == a.installId && ReceiptBytes(b)[8..24] == b.installId;
    assert ReceiptBytes(a)[24] == a.source && ReceiptBytes(b)[24] == b.source;
  }

  /**
   * One receipt for ever: whatever a device goes through, power cycles and torn writes included, every
   * acknowledgement it ever sends carries the one receipt that its page reads, and once one is sent the
   * page never changes again.
   */
  lemma OneReceiptForEver(world: World, before: seq<Event>, after: seq<Event>)
    requires world.log == []
    ensures var s := Run(PowerOn(world), before);
      var t := Run(s, after);
      && AllHonest(Acks(t.world.log), ReadReceipt(t.world.page))
      && (Acks(s.world.log) != [] ==> ReadReceipt(s.world.page).Recorded? && t.world.page == s.world.page)
  {
    hide Acks, ReadReceipt, Run;
    NothingAcknowledged(world);
    var s := Run(PowerOn(world), before);
    RunKeepsAcks(PowerOn(world), before);
    RunKeepsAcks(s, after);
    if Acks(s.world.log) != [] {
      assert Honest(Acks(s.world.log)[0], ReadReceipt(s.world.page));
    }
  }

  lemma NothingAcknowledged(world: World)
    requires world.log == []
    ensures AckInv(PowerOn(world))
  {
    hide ReadReceipt;
  }

  /** The acknowledgement of a receipt is byte for byte the request for it. */
  lemma RequestEchoed(frame: CheckedFrame)
    requires frame.messageType == RECORD_INSTALL_RECEIPT
    ensures |frame.payload| == 29
    ensures RecordedPayload(RequestIdOf(frame), ReceiptOf(frame)) == frame.payload
  {
    hide ToBytes, FromBytes;
    AcceptedLength(frame);
    var p := frame.payload;
    FromBytesRoundTrip(p[0..4]);
    FromBytesRoundTrip(p[4..12]);
    assert p == p[0..4] + (p[4..12] + p[12..28] + [p[28]]);
  }

  /**
   * On a recorded page an idle, negotiated session acknowledges a request for the same receipt again,
   * and answers a request for any other with a rejection; either way at once, if the sink takes it.
   */
  lemma RecordedPageAnswers(s: Session, frame: CheckedFrame, at: nat)
    requires frame.messageType == RECORD_INSTALL_RECEIPT
    requires s.link.negotiated && !s.uf2.requested && ReadReceipt(s.world.page).Recorded?
    requires s.world.replies != [] && s.world.replies[0]
    ensures var recorded := ReadReceipt(s.world.page).receipt;
      Step(s, FrameArrived(frame, at)).world.log == s.world.log + [
        if ReceiptOf(frame) == recorded then CdcSent(s.transmitSequence, INSTALL_RECEIPT_RECORDED, frame.payload)
        else CdcSent(s.transmitSequence, ERROR, ErrorPayload(INSTALL_RECEIPT_REJECTED, RequestIdOf(frame)))]
  {
    hide EncodeFrame, RequestIdOf, ReceiptOf, ErrorPayload, RecordedPayload, ReadReceipt, Judge, QueueReport,
         ForceZero;
    RequestEchoed(frame);
  }
}
