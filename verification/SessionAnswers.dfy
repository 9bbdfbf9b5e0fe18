/** What the host is answered, frame by frame and request by request, and what it is never answered. */
module SessionAnswers {
  import opened Bits
  import opened Protocol
  import opened Receipt
  import opened HidQueue
  import opened RumbleQueue
  import opened SessionModel
  import opened SessionSafety
  import opened SessionLog
  import opened SessionReceipt
  import opened SessionProgress
  import opened SessionHandshake

  /** A message of the device, without its number. */
  datatype Message = Message(messageType: byte, payload: seq<byte>)

  function BusyWith(id: uint32): Message {
    Message(ERROR, ErrorPayload(1, id))
  }

  function Rejected(id: uint32): Message {
    Message(ERROR, ErrorPayload(2, id))
  }

  /** The answers the protocol document gives to a frame of the host in an open session. */
  function DueAnswers(s: Session, frame: CheckedFrame): seq<Message>
    requires frame.messageType != HELLO
  {
    AcceptedLength(frame);
    if frame.messageType == PING then
      [Message(PONG, frame.payload)]
    else if frame.messageType == ENTER_UF2_BOOTLOADER then
      if s.job.requested || (s.uf2.requested && s.uf2.requestId != RequestIdOf(frame))
      then [BusyWith(RequestIdOf(frame))] else []
    else if frame.messageType == RECORD_INSTALL_RECEIPT then
      if s.uf2.requested then [BusyWith(RequestIdOf(frame))]
      else if ReadReceipt(s.world.page) == Recorded(ReceiptOf(frame)) then
        [Message(INSTALL_RECEIPT_RECORDED, frame.payload)]
      else if ReadReceipt(s.world.page).Recorded?
        || (s.job.requested && (s.job.requestId != RequestIdOf(frame) || s.job.receipt != ReceiptOf(frame))) then
        [Rejected(RequestIdOf(frame))]
      else []
    else []
  }

  lemma SendSends(s: Session, messageType: byte, payload: seq<byte>)
    requires |payload| <= MAX_PAYLOAD
    ensures SendMessage(s, messageType, payload).session.world.log
         == s.world.log + if Takes(s.world) then [CdcSent(s.transmitSequence, messageType, payload)] else []
    ensures SendMessage(s, messageType, payload).ok == Takes(s.world)
  {
    hide EncodeFrame;
  }

  function SentAs(s: Session, messages: seq<Message>): seq<Out> {
    if messages == [] || !Takes(s.world) then []
    else [CdcSent(s.transmitSequence, messages[0].messageType, messages[0].payload)]
  }

  /**
   * In an open session every frame but a greeting is answered, at once, exactly as documented, if the queue
   * takes the answer; with no session open nothing is.
   */
  lemma FramesAreAnswered(s: Session, frame: CheckedFrame, at: nat)
    requires frame.messageType != HELLO
    ensures Step(s, FrameArrived(frame, at)).world.log
         == s.world.log + (if s.link.negotiated then SentAs(s, DueAnswers(s, frame)) else [])
    ensures |DueAnswers(s, frame)| <= 1
  {
    hide SendMessage, ReportOf, RequestIdOf, ReceiptOf, ErrorPayload, RecordedPayload, ReadReceipt, Judge,
         QueueReport, ForceZero, RumbleQueue.Quarantine;
    AcceptedLength(frame);
    var heard := s.(link := s.link.(consecutiveErrors := 0, faulted := false));
    assert s.world.log + [] == s.world.log;
    if heard.link.negotiated {
      var checked := CheckSequence(heard, frame);
      if frame.messageType == PING {
        assert frame.payload[0..4] == frame.payload;
        SendSends(checked, PONG, frame.payload[0..4]);
      } else if frame.messageType == ENTER_UF2_BOOTLOADER {
        SendSends(checked, ERROR, ErrorPayload(UF2_TRANSITION_BUSY, RequestIdOf(frame)));
      } else if frame.messageType == RECORD_INSTALL_RECEIPT {
        var id := RequestIdOf(frame);
        RequestEchoed(frame);
        SendSends(checked, ERROR, ErrorPayload(UF2_TRANSITION_BUSY, id));
        SendSends(checked, ERROR, ErrorPayload(INSTALL_RECEIPT_REJECTED, id));
        SendSends(checked, INSTALL_RECEIPT_RECORDED, RecordedPayload(id, ReceiptOf(frame)));
      }
    }
  }

  /**
   * The requests a frame leaves behind: an idle, open session takes up either request, a receipt only if none
   * is recorded; the boot loader announced already is announced again to the same request; and nothing else
   * changes what is requested.
   */
  lemma RequestsExactly(s: Session, frame: CheckedFrame, at: nat)
    requires frame.messageType != HELLO
    ensures var t := Step(s, FrameArrived(frame, at));
      var open := s.link.negotiated && !Busy(s);
      && t.job == (if open && frame.messageType == RECORD_INSTALL_RECEIPT && !ReadReceipt(s.world.page).Recorded?
                   then ReceiptJob(true, RequestIdOf(frame), ReceiptOf(frame)) else s.job)
      && t.uf2 == (if frame.messageType != ENTER_UF2_BOOTLOADER || !s.link.negotiated || s.job.requested then s.uf2
                   else if !s.uf2.requested then s.uf2.(requested := true, requestId := RequestIdOf(frame))
                   else if s.uf2.requestId == RequestIdOf(frame) && s.uf2.ready then s.uf2.(readyPending := true)
                   else s.uf2)
  {
    hide SendMessage, ReportOf, RequestIdOf, ReceiptOf, ErrorPayload, RecordedPayload, ReadReceipt, Judge,
         QueueReport, ForceZero, RumbleQueue.Quarantine;
    AcceptedLength(frame);
    var heard := s.(link := s.link.(consecutiveErrors := 0, faulted := false));
    if heard.link.negotiated {
      var checked := CheckSequence(heard, frame);
      if frame.messageType == PING {
        SendingStaysOutside(checked, PONG, frame.payload[0..4]);
      } else if frame.messageType == ENTER_UF2_BOOTLOADER {
        SendingStaysOutside(checked, ERROR, ErrorPayload(UF2_TRANSITION_BUSY, RequestIdOf(frame)));
      } else if frame.messageType == RECORD_INSTALL_RECEIPT {
        var id := RequestIdOf(frame);
        SendingStaysOutside(checked, ERROR, ErrorPayload(UF2_TRANSITION_BUSY, id));
        SendingStaysOutside(checked, ERROR, ErrorPayload(INSTALL_RECEIPT_REJECTED, id));
        SendingStaysOutside(checked, INSTALL_RECEIPT_RECORDED, RecordedPayload(id, ReceiptOf(frame)));
      }
    }
  }

  // ----- A request that is served -----

  predicate EndsWithMessage(s: Session, m: Message) {
    && s.world.log != []
    && s.world.log[|s.world.log| - 1].CdcSent?
    && s.world.log[|s.world.log| - 1].messageType == m.messageType
    && s.world.log[|s.world.log| - 1].payload == m.payload
  }

  function NextSupply(w: World): Supply {
    if w.supplies == [] then Steady else w.supplies[0]
  }

  /** The answer a served receipt request gets, from what the page reads before and after the attempt. */
  function ReceiptAnswer(s: Session): Message {
    var id, data := s.job.requestId, s.job.receipt;
    match ReadReceipt(s.world.page)
    case Invalid => Rejected(id)
    case Recorded(r) =>
      if r == data then Message(INSTALL_RECEIPT_RECORDED, RecordedPayload(id, data))
      else Message(ERROR, ErrorPayload(3, id))
    case Pending =>
      if WriteReceipt(s.world.page, data, NextSupply(s.world)).ok
      then Message(INSTALL_RECEIPT_RECORDED, RecordedPayload(id, data))
      else Rejected(id)
  }

  lemma AcknowledgementAnswers(s: Session)
    requires s.job.requested && ReadReceipt(s.world.page) == Recorded(s.job.receipt) && Willing(s.world, 1)
    ensures var t, data := AcknowledgeReceipt(s), s.job.receipt;
      && EndsWithMessage(t, Message(INSTALL_RECEIPT_RECORDED, RecordedPayload(s.job.requestId, data)))
      && !t.job.requested && t.world.page == s.world.page && t.uf2 == s.uf2
  {
    hide ReadReceipt, SendMessage, RecordedPayload, ErrorPayload, Willing;
    AnswerPasses(s);
  }

  lemma ErrorAnswers(s: Session, code: uint16)
    requires code == INSTALL_RECEIPT_REJECTED || code == INSTALL_RECEIPT_READBACK_MISMATCH
    requires s.job.requested && Willing(s.world, 1)
    ensures var t := SendReceiptError(s, code);
      && EndsWithMessage(t, Message(ERROR, ErrorPayload(code, s.job.requestId)))
      && !t.job.requested && t.world.page == s.world.page && t.uf2 == s.uf2
  {
    hide SendMessage, RecordedPayload, ErrorPayload, Willing;
    AnswerPasses(s);
  }

  lemma ServiceAnswers(s: Session)
    requires s.job.requested && !s.uf2.requested && !s.hid.pending && !s.rumble.pending && Willing(s.world, 1)
    ensures var t := ServiceUf2(ServiceInstallReceipt(s));
      && EndsWithMessage(t, ReceiptAnswer(s)) && !t.job.requested
      && t.world.page == if ReadReceipt(s.world.page).Pending?
           then WriteReceipt(s.world.page, s.job.receipt, NextSupply(s.world)).page else s.world.page
  {
    hide WriteReceipt, ReadReceipt, SendReceiptError, RecordedPayload, ErrorPayload, EndsWithMessage;
    var recorded := RecordOnPage(s).session;
    match ReadReceipt(s.world.page)
    case Invalid => ErrorAnswers(s, INSTALL_RECEIPT_REJECTED);
    case Recorded(r) =>
      if r == s.job.receipt {
        AcknowledgementAnswers(s);
      } else {
        ErrorAnswers(s, INSTALL_RECEIPT_READBACK_MISMATCH);
      }
    case Pending =>
      AttemptOutcome(s.world.page, s.job.receipt, NextSupply(s.world));
      ErrorAnswers(recorded, INSTALL_RECEIPT_REJECTED);
      if RecordOnPage(s).ok {
        AcknowledgementAnswers(recorded);
      }
  }

  lemma AnswerPasses(s: Session)
    requires Willing(s.world, 1)
    ensures var id := s.job.requestId;
      && SendPassed(s, ERROR, ErrorPayload(INSTALL_RECEIPT_REJECTED, id))
      && SendPassed(s, ERROR, ErrorPayload(INSTALL_RECEIPT_READBACK_MISMATCH, id))
      && SendPassed(s, INSTALL_RECEIPT_RECORDED, RecordedPayload(id, s.job.receipt))
  {
    hide SendMessage, ErrorPayload, RecordedPayload, ReadReceipt;
    var id := s.job.requestId;
    SendPasses(s, ERROR, ErrorPayload(INSTALL_RECEIPT_REJECTED, id));
    SendPasses(s, ERROR, ErrorPayload(INSTALL_RECEIPT_READBACK_MISMATCH, id));
    SendPasses(s, INSTALL_RECEIPT_RECORDED, RecordedPayload(id, s.job.receipt));
  }

  predicate SendPassed(s: Session, messageType: byte, payload: seq<byte>)
    requires |payload| <= MAX_PAYLOAD
  {
    var sent := SendMessage(s, messageType, payload);
    && sent.ok && SameInside(s, sent.session) && sent.session.world.page == s.world.page
    && sent.session.world.log == s.world.log + [CdcSent(s.transmitSequence, messageType, payload)]
  }

  /**
   * The tick that finds the endpoint served answers the receipt request, whatever became of it, and ends it;
   * the page is as one attempt leaves it.
   */
  lemma TickAnswersReceipt(s: Session, at: nat)
    requires Inv(s) && s.link.negotiated && s.job.requested && !s.hid.pending && Willing(s.world, 3)
    ensures var t := Step(s, Ticked(at));
      && EndsWithMessage(t, ReceiptAnswer(s)) && !t.job.requested
      && t.world.page == if ReadReceipt(s.world.page).Pending?
           then WriteReceipt(s.world.page, s.job.receipt, NextSupply(s.world)).page else s.world.page
  {
    hide BeforeRequests, Willing, ServiceUf2, ServiceInstallReceipt, Tick, ReadReceipt, WriteReceipt, EndsWithMessage,
         HidQueue.Sound, RumbleQueue.Sound;
    TickSettles(s, Clock(at));
    ServiceAnswers(BeforeRequests(s, Clock(at)));
  }

  /** A receipt request is ended by no tick but one that gets its answer through. */
  lemma OnlyItsAnswerEndsARequest(s: Session, at: nat)
    requires Inv(s) && s.job.requested && !s.hid.pending
    ensures EndedByAnswer(s, Step(s, Ticked(at)))
  {
    hide ServiceDeviceInfo, ServiceRumble, ServiceInstallReceipt, ServiceUf2, QueueReport, ForceZero, HidQueue.Sound,
         RumbleQueue.Sound, AnswersReceipt, Passed;
    var a := ServiceWatchdog(s, Clock(at));
    InfoPasses(a);
    RumblePasses(ServiceDeviceInfo(a), Clock(at));
    var c := BeforeRequests(s, Clock(at));
    ServiceEndsByAnswer(c);
    var d := ServiceInstallReceipt(c);
    ReceiptServicePasses(c);
    Uf2Passes(d);
  }

  /** The out is the acknowledgement of the request, or an error with its id. */
  predicate AnswersReceipt(out: Out, job: ReceiptJob)
    requires out.CdcSent?
  {
    || (out.messageType == INSTALL_RECEIPT_RECORDED && out.payload == RecordedPayload(job.requestId, job.receipt))
    || (out.messageType == ERROR && exists code: uint16 :: out.payload == ErrorPayload(code, job.requestId))
  }

  predicate EndedByAnswer(s: Session, t: Session) {
    || t.job == s.job
    || (!t.job.requested && t.world.log != [] && t.world.log[|t.world.log| - 1].CdcSent?
        && AnswersReceipt(t.world.log[|t.world.log| - 1], s.job))
  }

  lemma AnswersEnd(s: Session)
    ensures EndedByAnswer(s, AcknowledgeReceipt(s)) && EndedByAnswer(s, SendReceiptError(s, INSTALL_RECEIPT_REJECTED))
  {
    hide SendMessage, ReadReceipt, ErrorPayload, RecordedPayload;
    SendLog(s, ERROR, ErrorPayload(INSTALL_RECEIPT_REJECTED, s.job.requestId));
    SendLog(s, ERROR, ErrorPayload(INSTALL_RECEIPT_READBACK_MISMATCH, s.job.requestId));
    SendLog(s, INSTALL_RECEIPT_RECORDED, RecordedPayload(s.job.requestId, s.job.receipt));
  }

  lemma ServiceEndsByAnswer(s: Session)
    ensures EndedByAnswer(s, ServiceInstallReceipt(s))
  {
    hide ReadReceipt, WriteReceipt, AcknowledgeReceipt, SendReceiptError, AnswersReceipt;
    AnswersEnd(s);
    AnswersEnd(RecordOnPage(s).session);
  }

  /** Whatever ends the connection ends both requests. */
  lemma RequestsEndWithConnection(s: Session, e: Event)
    requires EndsConnection(e)
    ensures !Busy(Step(s, e)) && !Step(s, e).uf2.ready
  {
    hide QueueReport, ForceZero;
  }

  /** An announced boot loader is not announced again unasked. */
  lemma AnnouncedOnce(s: Session, at: nat)
    requires Inv(s) && s.uf2.ready && !s.uf2.readyPending
    ensures Irreversibles(Step(s, Ticked(at)).world.log) == Irreversibles(s.world.log)
    ensures Step(s, Ticked(at)).uf2 == s.uf2
  {
    hide ServiceDeviceInfo, ServiceRumble, ServiceInstallReceipt, SendMessage, Irreversibles, QueueReport, ForceZero,
         HidQueue.Sound, RumbleQueue.Sound, Passed;
    var a := ServiceWatchdog(s, Clock(at));
    InfoPasses(a);
    InfoIsReversible(a);
    var b := ServiceDeviceInfo(a);
    RumblePasses(b, Clock(at));
    RumbleIsReversible(b, Clock(at));
    ReceiptServicePasses(ServiceRumble(b, Clock(at)));
  }

  lemma InfoIsReversible(s: Session)
    ensures Irreversibles(ServiceDeviceInfo(s).world.log) == Irreversibles(s.world.log)
  {
    hide SendMessage, DeviceInfoPayload, ReadReceipt, Irreversibles;
    SendIsReversible(s, DEVICE_INFO, DeviceInfoPayload(ReadReceipt(s.world.page)));
  }

  lemma RumbleIsReversible(s: Session, now: uint32)
    ensures Irreversibles(ServiceRumble(s, now).world.log) == Irreversibles(s.world.log)
  {
    hide SendMessage, RumblePayload, Timers, Transmitted, Irreversibles;
    var t := s.(rumble := Timers(s.rumble, now));
    SendIsReversible(t, RUMBLE, RumblePayload(t.rumble.pendingFeedback));
  }

  /** The boot loader, announced already, is announced again to the same request by the next tick. */
  lemma BootLoaderIsAnnouncedAgain(s: Session, frame: CheckedFrame, at: nat, tick: nat)
    requires Inv(s) && s.link.negotiated && s.uf2.ready && !s.hid.pending && Willing(s.world, 4 + 3)
    requires frame.messageType == ENTER_UF2_BOOTLOADER && RequestIdOf(frame) == s.uf2.requestId
    ensures var t := Step(Step(s, FrameArrived(frame, at)), Ticked(tick));
      EndsWithMessage(t, Message(UF2_BOOTLOADER_READY, frame.payload)) && !t.uf2.readyPending
  {
    hide BeforeRequests, Willing, ServiceUf2, ServiceInstallReceipt, Tick, ReadReceipt, OnFrame, HidQueue.Sound,
         RumbleQueue.Sound, RequestIdOf, ToBytes, EndsWithMessage;
    var e := FrameArrived(frame, at);
    var asked := Step(s, e);
    FrameKeepsRequests(s, frame, Clock(at));
    RequestsExactly(s, frame, at);
    StepKeepsInv(s, e);
    CalmStays(s, e);
    StepPasses(s, e);
    StillWilling(s.world, asked.world, 4, 3);
    TickSettles(asked, Clock(tick));
    var c := BeforeRequests(asked, Clock(tick));
    ReceiptServicePasses(c);
    IdIsPayload(frame);
    AnnouncedAgain(c, frame.payload);
  }

  lemma AnnouncedAgain(s: Session, payload: seq<byte>)
    requires s.uf2.requested && s.uf2.readyPending && !s.hid.pending && !s.rumble.pending && Willing(s.world, 1)
    requires ToBytes(s.uf2.requestId, 4) == payload
    ensures EndsWithMessage(ServiceUf2(s), Message(UF2_BOOTLOADER_READY, payload)) && !ServiceUf2(s).uf2.readyPending
  {
    hide SendMessage, ToBytes, ReadReceipt;
    SendPasses(s, UF2_BOOTLOADER_READY, ToBytes(s.uf2.requestId, 4));
  }

  // ----- What is never sent -----

  /** A receipt is being recorded only as long as the page does not hold another. */
  predicate JobInv(s: Session) {
    s.job.requested && ReadReceipt(s.world.page).Recorded? ==> ReadReceipt(s.world.page).receipt == s.job.receipt
  }

  predicate ReportsMismatch(out: Out) {
    && out.CdcSent? && out.messageType == ERROR
    && |out.payload| >= 2 && U16(out.payload[0], out.payload[1]) == INSTALL_RECEIPT_READBACK_MISMATCH
  }

  predicate NoMismatch(log: seq<Out>) {
    forall i | 0 <= i < |log| :: !ReportsMismatch(log[i])
  }

  lemma SendIsNoMismatch(s: Session, messageType: byte, payload: seq<byte>)
    requires |payload| <= MAX_PAYLOAD && NoMismatch(s.world.log)
    requires !ReportsMismatch(CdcSent(s.transmitSequence, messageType, payload))
    ensures NoMismatch(SendMessage(s, messageType, payload).session.world.log)
  {
    hide EncodeFrame, ReportsMismatch;
  }

  lemma ErrorIsNoMismatch(sequence: uint16, code: uint16, id: uint32)
    ensures ReportsMismatch(CdcSent(sequence, ERROR, ErrorPayload(code, id)))
       <==> code == INSTALL_RECEIPT_READBACK_MISMATCH
  {
    hide ToBytes, Low, High, U16;
    U16RoundTrip(code, 0, 0);
    var p := ErrorPayload(code, id);
    assert p[0] == Low(code) && p[1] == High(code);
  }

  lemma AnswerIsNoMismatch(s: Session, frame: CheckedFrame)
    requires frame.messageType != HELLO
    ensures NoMismatch(SentAs(s, DueAnswers(s, frame)))
  {
    hide ReadReceipt, RequestIdOf, ReceiptOf, ErrorPayload;
    AcceptedLength(frame);
    if |frame.payload| >= 4 {
      ErrorIsNoMismatch(s.transmitSequence, 1, RequestIdOf(frame));
      ErrorIsNoMismatch(s.transmitSequence, 2, RequestIdOf(frame));
    }
  }

  lemma NoMismatchConcat(a: seq<Out>, b: seq<Out>)
    ensures NoMismatch(a + b) <==> NoMismatch(a) && NoMismatch(b)
  {
    hide ReportsMismatch;
    var c := a + b;
    if NoMismatch(c) {
      assert forall i | 0 <= i < |a| :: a[i] == c[i];
      assert forall i | 0 <= i < |b| :: b[i] == c[|a| + i];
    }
  }

  lemma FrameIsNoMismatch(s: Session, frame: CheckedFrame, at: nat)
    requires JobInv(s) && NoMismatch(s.world.log)
    ensures var t := Step(s, FrameArrived(frame, at)); JobInv(t) && NoMismatch(t.world.log)
  {
    hide OnFrame, ReadReceipt, RequestIdOf, ReceiptOf, Greeted, DueAnswers, SentAs, NoMismatch;
    FramePasses(s, frame, Clock(at));
    if frame.messageType == HELLO {
      GreetingIsAnswered(s, frame, at);
      GreetingIsNoMismatch(s);
    } else {
      FramesAreAnswered(s, frame, at);
      RequestsExactly(s, frame, at);
      AnswerIsNoMismatch(s, frame);
      NoMismatchConcat(s.world.log, SentAs(s, DueAnswers(s, frame)));
      assert s.world.log + [] == s.world.log;
    }
  }

  lemma GreetingIsNoMismatch(s: Session)
    requires NoMismatch(s.world.log)
    ensures NoMismatch(s.world.log + [CdcSent(s.transmitSequence, HELLO_RESPONSE, [1])])
    ensures s.world.log + [] == s.world.log
  {
  }

  lemma RejectionIsNoMismatch(s: Session)
    requires NoMismatch(s.world.log)
    ensures NoMismatch(SendReceiptError(s, INSTALL_RECEIPT_REJECTED).world.log)
  {
    hide SendMessage, ErrorPayload, ReportsMismatch;
    ErrorIsNoMismatch(s.transmitSequence, INSTALL_RECEIPT_REJECTED, s.job.requestId);
    SendIsNoMismatch(s, ERROR, ErrorPayload(INSTALL_RECEIPT_REJECTED, s.job.requestId));
  }

  lemma AcknowledgementIsNoMismatch(s: Session)
    requires NoMismatch(s.world.log) && ReadReceipt(s.world.page) == Recorded(s.job.receipt)
    ensures NoMismatch(AcknowledgeReceipt(s).world.log)
  {
    hide SendMessage, ReadReceipt, RecordedPayload;
    SendIsNoMismatch(s, INSTALL_RECEIPT_RECORDED, RecordedPayload(s.job.requestId, s.job.receipt));
  }

  lemma AnswersKeepJob(s: Session)
    ensures var a, r := AcknowledgeReceipt(s), SendReceiptError(s, INSTALL_RECEIPT_REJECTED);
      && a.world.page == r.world.page == s.world.page
      && (a.job.requested ==> a.job == s.job) && (r.job.requested ==> r.job == s.job)
  {
    hide SendMessage, ReadReceipt, ErrorPayload, RecordedPayload;
    SendPasses(s, ERROR, ErrorPayload(INSTALL_RECEIPT_REJECTED, s.job.requestId));
    SendPasses(s, ERROR, ErrorPayload(INSTALL_RECEIPT_READBACK_MISMATCH, s.job.requestId));
    SendPasses(s, INSTALL_RECEIPT_RECORDED, RecordedPayload(s.job.requestId, s.job.receipt));
  }

  lemma ReceiptServiceIsNoMismatch(s: Session)
    requires JobInv(s) && NoMismatch(s.world.log)
    ensures var t := ServiceInstallReceipt(s); JobInv(t) && NoMismatch(t.world.log)
  {
    hide ReadReceipt, WriteReceipt, AcknowledgeReceipt, SendReceiptError, ReportsMismatch;
    if s.job.requested && !s.hid.pending && !s.rumble.pending {
      AnswersKeepJob(s);
      if ReadReceipt(s.world.page).Pending? {
        AttemptOutcome(s.world.page, s.job.receipt, NextSupply(s.world));
        var recorded := RecordOnPage(s).session;
        WriteIsNoMismatch(s);
        AnswersKeepJob(recorded);
        RejectionIsNoMismatch(recorded);
        if RecordOnPage(s).ok {
          AcknowledgementIsNoMismatch(recorded);
        }
      } else {
        RejectionIsNoMismatch(s);
        if ReadReceipt(s.world.page).Recorded? {
          AcknowledgementIsNoMismatch(s);
        }
      }
    }
  }

  lemma WriteIsNoMismatch(s: Session)
    requires NoMismatch(s.world.log)
    ensures NoMismatch(RecordOnPage(s).session.world.log)
  {
    hide WriteReceipt;
  }

  lemma TickIsNoMismatch(s: Session, now: uint32)
    requires JobInv(s) && NoMismatch(s.world.log)
    ensures JobInv(Tick(s, now)) && NoMismatch(Tick(s, now).world.log)
  {
    hide ServiceInstallReceipt, ServiceUf2, ServiceRumble, ServiceDeviceInfo, ReadReceipt, QueueReport, ForceZero,
         NoMismatch;
    var a := ServiceWatchdog(s, now);
    InfoIsNoMismatch(a);
    InfoPasses(a);
    var b := ServiceDeviceInfo(a);
    RumbleIsNoMismatch(b, now);
    RumblePasses(b, now);
    var c := ServiceRumble(b, now);
    ReceiptServiceIsNoMismatch(c);
    var d := ServiceInstallReceipt(c);
    ReadyIsNoMismatch(d);
    Uf2Passes(d);
  }

  lemma InfoIsNoMismatch(s: Session)
    requires NoMismatch(s.world.log)
    ensures NoMismatch(ServiceDeviceInfo(s).world.log)
  {
    hide SendMessage, DeviceInfoPayload, ReadReceipt;
    SendIsNoMismatch(s, DEVICE_INFO, DeviceInfoPayload(ReadReceipt(s.world.page)));
  }

  lemma RumbleIsNoMismatch(s: Session, now: uint32)
    requires NoMismatch(s.world.log)
    ensures NoMismatch(ServiceRumble(s, now).world.log)
  {
    hide SendMessage, RumblePayload, Timers, Transmitted;
    var t := s.(rumble := Timers(s.rumble, now));
    SendIsNoMismatch(t, RUMBLE, RumblePayload(t.rumble.pendingFeedback));
  }

  lemma ReadyIsNoMismatch(s: Session)
    requires NoMismatch(s.world.log)
    ensures NoMismatch(ServiceUf2(s).world.log)
  {
    hide SendMessage, ToBytes;
    SendIsNoMismatch(s, UF2_BOOTLOADER_READY, ToBytes(s.uf2.requestId, 4));
  }

  lemma StepIsNoMismatch(s: Session, e: Event)
    requires JobInv(s) && NoMismatch(s.world.log)
    ensures JobInv(Step(s, e)) && NoMismatch(Step(s, e).world.log)
  {
    hide OnFrame, Tick, ReadReceipt, QueueReport, ForceZero, FromSource, RumbleQueue.Quarantine, MarkSent;
    if e.FrameArrived? {
      FrameIsNoMismatch(s, e.frame, e.at);
    } else if e.Ticked? {
      TickIsNoMismatch(s, Clock(e.at));
    }
  }

  lemma {:induction false} RunIsNoMismatch(s: Session, events: seq<Event>)
    requires JobInv(s) && NoMismatch(s.world.log)
    ensures JobInv(Run(s, events)) && NoMismatch(Run(s, events).world.log)
    decreases |events|
  {
    hide Step, JobInv, NoMismatch;
    if events != [] {
      StepIsNoMismatch(s, events[0]);
      RunIsNoMismatch(Step(s, events[0]), events[1..]);
    }
  }

  /**
   * The readback never disagrees: in no run, power cycles and torn writes included, is a readback mismatch
   * ever reported, as a request is only open while the page does not hold another receipt.
   */
  lemma ReadbackNeverMismatches(s: Session, i: nat)
    requires Reachable(s) && i < |s.world.log| && s.world.log[i].CdcSent? && s.world.log[i].messageType == ERROR
    ensures |s.world.log[i].payload| >= 2 ==>
      U16(s.world.log[i].payload[0], s.world.log[i].payload[1]) != INSTALL_RECEIPT_READBACK_MISMATCH
  {
    hide Run, JobInv;
    var world: World, events: seq<Event> :| world.log == [] && s == Run(PowerOn(world), events);
    NothingRequested(world);
    RunIsNoMismatch(PowerOn(world), events);
    assert !ReportsMismatch(s.world.log[i]);
  }

  lemma NothingRequested(world: World)
    ensures JobInv(PowerOn(world)) && PowerOn(world).world == world
  {
    hide ReadReceipt;
  }
}
