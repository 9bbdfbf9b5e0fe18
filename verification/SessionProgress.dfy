/** What a willing host, endpoint and flash get: the irreversible requests are fulfilled. */
module SessionProgress {
  import opened Bits
  import opened Protocol
  import opened Receipt
  import opened HidQueue
  import opened RumbleQueue
  import opened SessionModel
  import opened SessionSafety
  import opened SessionHid
  import opened SessionReceipt

  /** The CDC queue takes the next `n` frames. */
  predicate Willing(w: World, n: nat) {
    n <= |w.replies| && forall i | 0 <= i < n :: w.replies[i]
  }

  /** The events that end a request, or the session it was made in. */
  predicate Disturbs(s: Session, e: Event) {
    || e.CdcConnected? || e.CdcDisconnected? || e.PowerCycled?
    || (e.FrameArrived? && e.frame.messageType == HELLO)
    || (e.DecodeFailed? && SaturatingNext(s.link.consecutiveErrors) >= 3)
  }

  predicate Undisturbed(s: Session, events: seq<Event>)
    decreases |events|
  {
    events == [] || (!Disturbs(s, events[0]) && Undisturbed(Step(s, events[0]), events[1..]))
  }

  predicate Mountless(events: seq<Event>) {
    forall e <- events :: !e.HidMounted?
  }

  predicate Tickless(events: seq<Event>) {
    forall e <- events :: !e.Ticked?
  }

  /** What has been asked for, a receipt to be recorded or the boot loader, and the payload of its answer. */
  datatype Wish =
    | Record(receipt: ReceiptData, answer: seq<byte>)
    | BootLoader(answer: seq<byte>)

  predicate Answers(out: Out, w: Wish) {
    && out.CdcSent?
    && out.messageType == (if w.Record? then INSTALL_RECEIPT_RECORDED else UF2_BOOTLOADER_READY)
    && out.payload == w.answer
  }

  /** The wish is the session's open request, and nothing stands against it. */
  predicate Wants(s: Session, w: Wish) {
    && Inv(s)
    && s.link.negotiated
    && match w {
         case Record(receipt, answer) =>
           && s.job.requested && s.job.receipt == receipt && RecordedPayload(s.job.requestId, receipt) == answer
           && WellFormed(receipt) && ReadReceipt(s.world.page).Pending? && s.world.supplies == []
         case BootLoader(answer) =>
           s.uf2.requested && !s.uf2.ready && ToBytes(s.uf2.requestId, 4) == answer
       }
  }

  /** The wish has been granted, and its answer has left the device after the first `from` things that did. */
  ghost predicate Granted(s: Session, w: Wish, from: nat) {
    && Inv(s)
    && (if w.Record? then ReadReceipt(s.world.page) == Recorded(w.receipt) && !s.job.requested else s.uf2.ready)
    && exists i | from <= i < |s.world.log| :: Answers(s.world.log[i], w)
  }

  predicate EndsWithAnswer(s: Session, w: Wish) {
    s.world.log != [] && Answers(s.world.log[|s.world.log| - 1], w)
  }

  // ----- What every step keeps and spends -----

  /** The log grew, at most `n` frames were offered to the CDC queue, and a settled page stayed. */
  predicate Passed(v: World, w: World, n: nat) {
    && v.log <= w.log
    && 0 <= |v.replies| - |w.replies| <= n
    && w.replies == v.replies[|v.replies| - |w.replies|..]
    && (!ReadReceipt(v.page).Pending? ==> w.page == v.page)
  }

  lemma PassedOn(v: World, w: World, x: World, m: nat, n: nat)
    requires Passed(v, w, m) && Passed(w, x, n)
    ensures Passed(v, x, m + n)
  {
    hide ReadReceipt;
    var i, j := |v.replies| - |w.replies|, |w.replies| - |x.replies|;
    assert v.replies[i..][j..] == v.replies[i + j..];
  }

  lemma NothingPassed(w: World, n: nat)
    ensures Passed(w, w, n)
  {
    hide ReadReceipt;
  }

  lemma StillWilling(v: World, w: World, k: nat, n: nat)
    requires Passed(v, w, k) && Willing(v, n + k)
    ensures Willing(w, n)
  {
    hide ReadReceipt;
    var d := |v.replies| - |w.replies|;
    forall i | 0 <= i < n
      ensures w.replies[i]
    {
      assert w.replies[i] == v.replies[d + i];
    }
  }

  /** Nothing of the requests, the report queue, the page or its power changed. */
  predicate SameRequests(s: Session, t: Session) {
    && t.uf2 == s.uf2 && t.job == s.job && t.hid == s.hid && t.link.negotiated == s.link.negotiated
    && t.world.page == s.world.page && t.world.supplies == s.world.supplies
  }

  lemma SendPasses(s: Session, messageType: byte, payload: seq<byte>)
    requires |payload| <= MAX_PAYLOAD
    ensures var sent := SendMessage(s, messageType, payload);
      && Passed(s.world, sent.session.world, 1) && SameInside(s, sent.session)
      && sent.session.world.page == s.world.page && sent.session.world.supplies == s.world.supplies
      && (sent.ok ==> sent.session.world.log == s.world.log + [CdcSent(s.transmitSequence, messageType, payload)])
      && (Willing(s.world, 1) ==> sent.ok)
  {
    hide EncodeFrame, ReadReceipt;
  }

  lemma InfoPasses(s: Session)
    ensures Passed(s.world, ServiceDeviceInfo(s).world, 1) && SameRequests(s, ServiceDeviceInfo(s))
    ensures ServiceDeviceInfo(s).rumble == s.rumble && ServiceDeviceInfo(s).watchdogArmed == s.watchdogArmed
  {
    hide SendMessage, DeviceInfoPayload, ReadReceipt;
    SendPasses(s, DEVICE_INFO, DeviceInfoPayload(ReadReceipt(s.world.page)));
  }

  lemma RumblePasses(s: Session, now: uint32)
    ensures Passed(s.world, ServiceRumble(s, now).world, 1) && SameRequests(s, ServiceRumble(s, now))
  {
    hide SendMessage, RumblePayload, Timers, Transmitted, ReadReceipt;
    var t := s.(rumble := Timers(s.rumble, now));
    SendPasses(t, RUMBLE, RumblePayload(t.rumble.pendingFeedback));
  }

  lemma AnswersPass(s: Session)
    ensures Passed(s.world, AcknowledgeReceipt(s).world, 1)
    ensures Passed(s.world, SendReceiptError(s, INSTALL_RECEIPT_REJECTED).world, 1)
    ensures AcknowledgeReceipt(s).uf2 == SendReceiptError(s, INSTALL_RECEIPT_REJECTED).uf2 == s.uf2
  {
    hide SendMessage, ReadReceipt, ErrorPayload, RecordedPayload;
    SendPasses(s, ERROR, ErrorPayload(INSTALL_RECEIPT_REJECTED, s.job.requestId));
    SendPasses(s, ERROR, ErrorPayload(INSTALL_RECEIPT_READBACK_MISMATCH, s.job.requestId));
    SendPasses(s, INSTALL_RECEIPT_RECORDED, RecordedPayload(s.job.requestId, s.job.receipt));
  }

  lemma RecordingPasses(s: Session)
    ensures Passed(s.world, RecordOnPage(s).session.world, 0) && RecordOnPage(s).session.uf2 == s.uf2
  {
    hide WriteReceipt, ReadReceipt;
    if !ReadReceipt(s.world.page).Pending? {
      NotPendingIsUntouched(s.world.page, s.job.receipt,
                            if s.world.supplies == [] then Steady else s.world.supplies[0]);
    }
  }

  lemma ReceiptServicePasses(s: Session)
    ensures Passed(s.world, ServiceInstallReceipt(s).world, 1) && ServiceInstallReceipt(s).uf2 == s.uf2
    ensures !s.job.requested || s.hid.pending || s.rumble.pending ==> ServiceInstallReceipt(s) == s
  {
    hide ReadReceipt, RecordOnPage, AcknowledgeReceipt, SendReceiptError, Passed;
    var recorded := RecordOnPage(s).session;
    AnswersPass(s);
    AnswersPass(recorded);
    RecordingPasses(s);
    PassedOn(s.world, recorded.world, AcknowledgeReceipt(recorded).world, 0, 1);
    PassedOn(s.world, recorded.world, SendReceiptError(recorded, INSTALL_RECEIPT_REJECTED).world, 0, 1);
    NothingPassed(s.world, 1);
  }

  lemma Uf2Passes(s: Session)
    ensures Passed(s.world, ServiceUf2(s).world, 1) && ServiceUf2(s).job == s.job
    ensures s.uf2.ready ==> ServiceUf2(s).uf2.ready
    ensures ServiceUf2(s).world.page == s.world.page
    ensures !s.uf2.requested || s.hid.pending || s.rumble.pending ==> ServiceUf2(s) == s
  {
    hide SendMessage, ToBytes, ReadReceipt;
    SendPasses(s, UF2_BOOTLOADER_READY, ToBytes(s.uf2.requestId, 4));
  }

  /** Up to its services of requests, a tick delivers what is left. */
  function BeforeRequests(s: Session, now: uint32): Session {
    ServiceRumble(ServiceDeviceInfo(ServiceWatchdog(s, now)), now)
  }

  lemma TickPasses(s: Session, now: uint32)
    ensures Passed(s.world, Tick(s, now).world, 4)
  {
    hide ServiceDeviceInfo, ServiceRumble, ServiceInstallReceipt, ServiceUf2, Passed, QueueReport, ForceZero;
    var a := ServiceWatchdog(s, now);
    var b := ServiceDeviceInfo(a);
    var c := ServiceRumble(b, now);
    var d := ServiceInstallReceipt(c);
    InfoPasses(a);
    RumblePasses(b, now);
    ReceiptServicePasses(c);
    Uf2Passes(d);
    PassedOn(a.world, b.world, c.world, 1, 1);
    PassedOn(a.world, c.world, d.world, 2, 1);
    PassedOn(a.world, d.world, ServiceUf2(d).world, 3, 1);
  }

  /** A frame never touches the page, and offers at most one frame in answer. */
  lemma FramePasses(s: Session, frame: CheckedFrame, now: uint32)
    ensures var t := OnFrame(s, frame, now);
      Passed(s.world, t.world, 1) && t.world.page == s.world.page && t.world.supplies == s.world.supplies
  {
    hide SendMessage, ReportOf, RequestIdOf, ReceiptOf, ErrorPayload, RecordedPayload, ReadReceipt, Judge,
         QueueReport, ForceZero, RumbleQueue.Quarantine, Passed;
    AcceptedLength(frame);
    var heard := s.(link := s.link.(consecutiveErrors := 0, faulted := false));
    NothingPassed(s.world, 1);
    if frame.messageType == HELLO {
      SendPasses(MakeSafe(heard).(link := HelloLink(heard.link, frame)), HELLO_RESPONSE, [PROTOCOL_VERSION]);
    } else if heard.link.negotiated {
      var checked := CheckSequence(heard, frame);
      if frame.messageType == PING {
        SendPasses(checked, PONG, frame.payload[0..4]);
      } else if frame.messageType == ENTER_UF2_BOOTLOADER {
        SendPasses(checked, ERROR, ErrorPayload(UF2_TRANSITION_BUSY, RequestIdOf(frame)));
      } else if frame.messageType == RECORD_INSTALL_RECEIPT {
        var id := RequestIdOf(frame);
        SendPasses(checked, ERROR, ErrorPayload(UF2_TRANSITION_BUSY, id));
        SendPasses(checked, ERROR, ErrorPayload(INSTALL_RECEIPT_REJECTED, id));
        SendPasses(checked, INSTALL_RECEIPT_RECORDED, RecordedPayload(id, ReceiptOf(frame)));
      }
    }
  }

  /**
   * Short of a handshake, no frame changes a request in progress, takes an announcement back, or asks
   * again for what is recorded.
   */
  lemma FrameKeepsRequests(s: Session, frame: CheckedFrame, now: uint32)
    requires frame.messageType != HELLO
    ensures var t := OnFrame(s, frame, now);
      && t.link.negotiated == s.link.negotiated
      && (Busy(s) ==> t.job == s.job && (!s.uf2.ready ==> t.uf2 == s.uf2))
      && (s.uf2.requested && s.uf2.ready ==> t.uf2.ready)
      && (ReadReceipt(s.world.page).Recorded? && !s.job.requested ==> !t.job.requested)
  {
    hide SendMessage, ReportOf, RequestIdOf, ReceiptOf, ErrorPayload, RecordedPayload, ReadReceipt, Judge,
         QueueReport, ForceZero, RumbleQueue.Quarantine;
    AcceptedLength(frame);
    var heard := s.(link := s.link.(consecutiveErrors := 0, faulted := false));
    if heard.link.negotiated {
      var checked := CheckSequence(heard, frame);
      if frame.messageType == PING {
        SendingStaysOutside(checked, PONG, frame.payload[0..4]);
      } else if frame.messageType == ENTER_UF2_BOOTLOADER {
        SendingStaysOutside(checked, ERROR, ErrorPayload(UF2_TRANSITION_BUSY, RequestIdOf(frame)));
      } else if frame.messageType == RECORD_INSTALL_RECEIPT {
        var id := RequestIdOf(frame);
        SendingStaysOutside(checked, ERROR, ErrorPayload(UF2_TRANSITION_BUSY, id));
        SendingStaysOutside(checked, ERROR, ErrorPayload(INSTALL_RECEIPT_REJECTED, id));
        SendingStaysOutside(checked, INSTALL_RECEIPT_RECORDED, RecordedPayload(id, ReceiptOf(frame)));
      }
    }
  }

  lemma StepPasses(s: Session, e: Event)
    ensures Passed(s.world, Step(s, e).world, 4)
  {
    hide OnFrame, Tick, ReadReceipt, QueueReport, ForceZero, FromSource, RumbleQueue.Quarantine, MarkSent;
    if e.FrameArrived? {
      FramePasses(s, e.frame, Clock(e.at));
    } else if e.Ticked? {
      TickPasses(s, Clock(e.at));
    }
  }

  /** Once nothing waits for the endpoint, a busy session puts nothing there, unless the host mounts anew. */
  lemma CalmStays(s: Session, e: Event)
    requires Inv(s) && Busy(s) && !e.PowerCycled?
    ensures e.HidAccepted? || (!e.HidMounted? && !s.hid.pending) ==> !Step(s, e).hid.pending
  {
    hide Step, SafetyEvent, Hids, RumbleQueue.Sound;
    HidEvolves(s, e);
  }

  // ----- Before the wish is granted -----

  lemma IdleServices(s: Session, now: uint32)
    requires Inv(s) && s.hid.pending && Busy(s)
    ensures Tick(s, now) == BeforeRequests(s, now) && SameRequests(s, Tick(s, now))
  {
    hide ServiceDeviceInfo, ServiceRumble, ServiceInstallReceipt, ServiceUf2, Passed;
    InfoPasses(s);
    RumblePasses(ServiceDeviceInfo(s), now);
    var c := BeforeRequests(s, now);
    ReceiptServicePasses(c);
    Uf2Passes(c);
  }

  /** Until a tick finds the endpoint served, the wish stays as it is. */
  lemma WishStays(s: Session, e: Event, w: Wish)
    requires Wants(s, w) && !Disturbs(s, e) && (e.Ticked? ==> s.hid.pending)
    ensures Wants(Step(s, e), w)
  {
    hide OnFrame, Tick, ReadReceipt, WellFormed, QueueReport, ForceZero, FromSource, RumbleQueue.Quarantine,
         MarkSent, Inv, RecordedPayload, ToBytes;
    StepKeepsInv(s, e);
    if e.FrameArrived? {
      FramePasses(s, e.frame, Clock(e.at));
      FrameKeepsRequests(s, e.frame, Clock(e.at));
    } else if e.Ticked? {
      IdleServices(s, Clock(e.at));
    }
  }

  lemma ZeroIsSent(s: Session, now: uint32)
    requires Inv(s) && s.link.negotiated && Busy(s) && Willing(s.world, 2)
    ensures !ServiceRumble(s, now).rumble.pending
  {
    hide SendMessage, RumblePayload, HidQueue.Sound;
    var t := s.(rumble := Timers(s.rumble, now));
    SendPasses(t, RUMBLE, RumblePayload(t.rumble.pendingFeedback));
  }

  /** A tick that finds the endpoint served first sends whatever rumble is left. */
  lemma TickSettles(s: Session, now: uint32)
    requires Inv(s) && s.link.negotiated && Busy(s) && !s.hid.pending && Willing(s.world, 3)
    ensures var t := BeforeRequests(s, now);
      && !t.rumble.pending && !t.hid.pending && SameRequests(s, t) && Willing(t.world, 1)
      && s.world.log <= t.world.log
    ensures Tick(s, now) == ServiceUf2(ServiceInstallReceipt(BeforeRequests(s, now)))
  {
    hide ServiceDeviceInfo, ServiceRumble, ServiceInstallReceipt, ServiceUf2, Willing, Inv, ReadReceipt;
    assert ServiceWatchdog(s, now) == s by {
      assert Inv(s);
      NotArmed(s);
    }
    var b := ServiceDeviceInfo(s);
    InfoPasses(s);
    InfoKeepsInv(s);
    StillWilling(s.world, b.world, 1, 2);
    RumblePasses(b, now);
    StillWilling(b.world, ServiceRumble(b, now).world, 1, 1);
    ZeroIsSent(b, now);
  }

  lemma NotArmed(s: Session)
    requires Inv(s) && Busy(s)
    ensures !s.watchdogArmed
  {
  }

  lemma ReceiptServed(s: Session, w: Wish)
    requires Wants(s, w) && w.Record? && !s.hid.pending && !s.rumble.pending && Willing(s.world, 1)
    ensures var t := ServiceUf2(ServiceInstallReceipt(s));
      && ReadReceipt(t.world.page) == Recorded(w.receipt) && !t.job.requested
      && EndsWithAnswer(t, w) && |s.world.log| < |t.world.log|
  {
    hide WriteReceipt, ReadReceipt, WellFormed, SendMessage, RecordedPayload, HidQueue.Sound, RumbleQueue.Sound;
    AttemptOutcome(s.world.page, s.job.receipt, Steady);
    var recorded := RecordOnPage(s).session;
    SendPasses(recorded, INSTALL_RECEIPT_RECORDED, RecordedPayload(s.job.requestId, s.job.receipt));
  }

  lemma BootLoaderServed(s: Session, w: Wish)
    requires Wants(s, w) && w.BootLoader? && !s.hid.pending && !s.rumble.pending && Willing(s.world, 1)
    ensures var t := ServiceUf2(ServiceInstallReceipt(s));
      t.uf2.ready && EndsWithAnswer(t, w) && |s.world.log| < |t.world.log|
  {
    hide SendMessage, ToBytes, ReadReceipt, HidQueue.Sound, RumbleQueue.Sound;
    SendPasses(s, UF2_BOOTLOADER_READY, ToBytes(s.uf2.requestId, 4));
  }

  lemma WishPassesOn(s: Session, t: Session, w: Wish)
    requires Wants(s, w) && Inv(t) && SameRequests(s, t)
    ensures Wants(t, w)
  {
    hide Inv, ReadReceipt, WellFormed, RecordedPayload, ToBytes;
  }

  lemma SettledKeepsInv(s: Session, now: uint32)
    requires Inv(s)
    ensures Inv(BeforeRequests(s, now))
  {
    hide Inv, ServiceWatchdog, ServiceDeviceInfo, ServiceRumble;
    WatchdogKeepsInv(s, now);
    InfoKeepsInv(ServiceWatchdog(s, now));
    RumbleServiceKeepsInv(ServiceDeviceInfo(ServiceWatchdog(s, now)), now);
  }

  /** A tick that finds the endpoint served grants the wish, and the answer is the last thing it sends. */
  lemma TickGrants(s: Session, at: nat, w: Wish)
    requires Wants(s, w) && !s.hid.pending && Willing(s.world, 3)
    ensures var t := Step(s, Ticked(at));
      EndsWithAnswer(t, w) && Granted(t, w, |s.world.log|)
  {
    hide BeforeRequests, Inv, Willing, ServiceUf2, ServiceInstallReceipt, Tick, WellFormed, ReadReceipt,
         RecordedPayload, ToBytes, Answers;
    var now := Clock(at);
    var u := BeforeRequests(s, now);
    TickSettles(s, now);
    SettledKeepsInv(s, now);
    WishPassesOn(s, u, w);
    TickKeepsInv(s, now);
    if w.Record? {
      ReceiptServed(u, w);
    } else {
      BootLoaderServed(u, w);
    }
    var t := Tick(s, now);
    assert |s.world.log| <= |t.world.log| - 1 && Answers(t.world.log[|t.world.log| - 1], w);
  }

  lemma LogGrows(s: Session, e: Event)
    ensures s.world.log <= Step(s, e).world.log
  {
    hide Step, ReadReceipt;
    StepPasses(s, e);
  }

  // ----- After it, and over whole runs -----

  /** What is granted stays so. */
  lemma GrantStays(s: Session, e: Event, w: Wish, from: nat)
    requires Granted(s, w, from) && !Disturbs(s, e)
    ensures Granted(Step(s, e), w, from)
  {
    hide OnFrame, Tick, ReadReceipt, QueueReport, ForceZero, FromSource, RumbleQueue.Quarantine, MarkSent, Answers;
    var t := Step(s, e);
    StepKeepsInv(s, e);
    StepPasses(s, e);
    var i :| from <= i < |s.world.log| && Answers(s.world.log[i], w);
    assert Answers(t.world.log[i], w);
    if e.FrameArrived? {
      FrameKeepsRequests(s, e.frame, Clock(e.at));
    } else if e.Ticked? {
      TickKeepsGrant(s, Clock(e.at));
    }
  }

  lemma TickKeepsGrant(s: Session, now: uint32)
    ensures !s.job.requested ==> !Tick(s, now).job.requested
    ensures s.uf2.ready ==> Tick(s, now).uf2.ready
  {
    hide ServiceDeviceInfo, ServiceRumble, ServiceInstallReceipt, ServiceUf2, QueueReport, ForceZero, Passed;
    var a := ServiceWatchdog(s, now);
    var b := ServiceDeviceInfo(a);
    var c := ServiceRumble(b, now);
    InfoPasses(a);
    RumblePasses(b, now);
    ReceiptServicePasses(c);
    Uf2Passes(ServiceInstallReceipt(c));
  }

  /**
   * On its way or granted. `calm` is whether the endpoint has been served; the host takes at least `n`
   * more frames.
   */
  ghost predicate OnItsWay(s: Session, w: Wish, from: nat, calm: bool, n: nat) {
    || (Wants(s, w) && from <= |s.world.log| && (calm ==> !s.hid.pending) && Willing(s.world, n))
    || Granted(s, w, from)
  }

  lemma StepOnItsWay(s: Session, e: Event, w: Wish, from: nat, calm: bool, n: nat)
    requires OnItsWay(s, w, from, calm, n + 4) && !Disturbs(s, e)
    requires calm ==> !e.HidMounted?
    ensures OnItsWay(Step(s, e), w, from, calm || e.HidAccepted?, n)
    ensures Wants(s, w) && !e.Ticked? ==> Wants(Step(s, e), w)
  {
    hide Step, Granted, Willing, Inv, Answers;
    if Wants(s, w) && !e.Ticked? {
      WishStays(s, e, w);
    }
    if Granted(s, w, from) {
      GrantStays(s, e, w, from);
    } else if e.Ticked? && !s.hid.pending {
      StillWilling3(s.world, n);
      TickGrants(s, e.at, w);
      GrantedSince(Step(s, e), w, |s.world.log|, from);
    } else {
      WishStays(s, e, w);
      WishIsBusy(s, w);
      CalmStays(s, e);
      StepPasses(s, e);
      StillWilling(s.world, Step(s, e).world, 4, n);
      LogGrows(s, e);
    }
  }

  lemma StillWilling3(w: World, n: nat)
    requires Willing(w, n + 4)
    ensures Willing(w, 3)
  {
  }

  lemma GrantedSince(s: Session, w: Wish, late: nat, from: nat)
    requires Granted(s, w, late) && from <= late
    ensures Granted(s, w, from)
  {
    hide Inv, Answers, ReadReceipt;
  }

  lemma WishIsBusy(s: Session, w: Wish)
    requires Wants(s, w)
    ensures Inv(s) && Busy(s)
  {
  }

  lemma {:induction false} RunOnItsWay(s: Session, events: seq<Event>, w: Wish, from: nat, calm: bool, n: nat)
    requires OnItsWay(s, w, from, calm, 4 * |events| + n) && Undisturbed(s, events)
    requires calm ==> Mountless(events)
    ensures OnItsWay(Run(s, events), w, from, calm, n)
    ensures Wants(s, w) && Tickless(events) ==> Wants(Run(s, events), w)
    decreases |events|
  {
    hide Step, OnItsWay, Disturbs, Wants;
    if events != [] {
      var e, rest := events[0], events[1..];
      assert e in events && forall x <- rest :: x in events;
      StepOnItsWay(s, e, w, from, calm, 4 * |rest| + n);
      Calmed(Step(s, e), w, from, calm, e.HidAccepted?, 4 * |rest| + n);
      RunOnItsWay(Step(s, e), rest, w, from, calm, n);
    }
  }

  lemma Calmed(s: Session, w: Wish, from: nat, calm: bool, accepted: bool, n: nat)
    requires OnItsWay(s, w, from, calm || accepted, n)
    ensures OnItsWay(s, w, from, calm, n)
  {
    hide Granted, Wants;
  }

  lemma {:induction false} RunConcat(s: Session, a: seq<Event>, b: seq<Event>)
    ensures Run(s, a + b) == Run(Run(s, a), b)
    ensures Undisturbed(s, a + b) <==> Undisturbed(s, a) && Undisturbed(Run(s, a), b)
    decreases |a|
  {
    hide Step, Disturbs;
    if a == [] {
      assert a + b == b;
    } else {
      assert (a + b)[0] == a[0] && (a + b)[1..] == a[1..] + b;
      RunConcat(Step(s, a[0]), a[1..], b);
    }
  }

  lemma OneStep(s: Session, e: Event)
    ensures Run(s, [e]) == Step(s, e)
    ensures Undisturbed(s, [e]) <==> !Disturbs(s, e)
  {
    hide Step, Disturbs;
    assert [e][1..] == [];
  }

  lemma StartsOut(s: Session, w: Wish, n: nat)
    requires Wants(s, w) && Willing(s.world, n)
    ensures OnItsWay(s, w, |s.world.log|, false, n)
  {
    hide Wants, Willing;
  }

  lemma RunInParts(s: Session, a: seq<Event>, b: seq<Event>, tick: nat)
    requires Undisturbed(s, a + [HidAccepted] + b)
    ensures var p := Run(s, a);
      var q := Step(p, HidAccepted);
      && Undisturbed(s, a) && !Disturbs(p, HidAccepted) && Undisturbed(q, b)
      && Run(s, a + [HidAccepted] + b + [Ticked(tick)]) == Step(Run(q, b), Ticked(tick))
  {
    hide Step, Run, Undisturbed, Disturbs;
    RunConcat(s, a + [HidAccepted] + b, [Ticked(tick)]);
    RunConcat(s, a + [HidAccepted], b);
    RunConcat(s, a, [HidAccepted]);
    OneStep(Run(s, a), HidAccepted);
    OneStep(Run(Step(Run(s, a), HidAccepted), b), Ticked(tick));
  }

  lemma TicklessParts(a: seq<Event>, b: seq<Event>)
    ensures Tickless(a + b) ==> Tickless(a) && Tickless(b)
  {
    assert forall e <- a :: e in a + b;
    assert forall e <- b :: e in a + b;
  }

  /** From an open request over any run `a`, an acceptance, any run `b` without a mount, and a tick. */
  lemma WishIsGranted(s: Session, a: seq<Event>, b: seq<Event>, tick: nat, w: Wish)
    requires Wants(s, w) && Willing(s.world, 4 * (|a| + |b| + 2))
    requires Undisturbed(s, a + [HidAccepted] + b) && Mountless(b)
    ensures var t := Run(s, a + [HidAccepted] + b + [Ticked(tick)]);
      && Granted(t, w, |s.world.log|)
      && (Tickless(a + b) ==> EndsWithAnswer(t, w))
  {
    hide Step, Run, Undisturbed, Granted, Wants, Willing, EndsWithAnswer, Disturbs, OnItsWay, Mountless, Tickless;
    var from := |s.world.log|;
    RunInParts(s, a, b, tick);
    var p := Run(s, a);
    var q := Step(p, HidAccepted);
    StartsOut(s, w, 4 * |a| + 4 * (|b| + 2));
    RunOnItsWay(s, a, w, from, false, 4 * (|b| + 2));
    StepOnItsWay(p, HidAccepted, w, from, false, 4 * |b| + 4);
    RunOnItsWay(q, b, w, from, true, 4);
    LastTick(Run(q, b), tick, w, from);
    TicklessParts(a, b);
  }

  lemma TickIsHarmless(s: Session, tick: nat)
    ensures !Disturbs(s, Ticked(tick))
  {
  }

  lemma LastTick(s: Session, tick: nat, w: Wish, from: nat)
    requires OnItsWay(s, w, from, true, 4)
    ensures Granted(Step(s, Ticked(tick)), w, from)
    ensures Wants(s, w) ==> EndsWithAnswer(Step(s, Ticked(tick)), w)
  {
    hide Step, Granted, Wants, Answers, EndsWithAnswer;
    TickIsHarmless(s, tick);
    if Granted(s, w, from) {
      GrantStays(s, Ticked(tick), w, from);
      GrantedIsNotWanted(s, w, from);
    } else {
      StillWilling3(s.world, 0);
      TickGrants(s, tick, w);
      GrantedSince(Step(s, Ticked(tick)), w, |s.world.log|, from);
    }
  }

  lemma GrantedIsNotWanted(s: Session, w: Wish, from: nat)
    requires Granted(s, w, from)
    ensures !Wants(s, w)
  {
    hide Inv, Answers, ReadReceipt;
  }

  // ----- The two requests -----

  lemma ReceiptRequested(s: Session, frame: CheckedFrame, at: nat)
    requires Inv(s) && s.link.negotiated && !Busy(s) && frame.messageType == RECORD_INSTALL_RECEIPT
    requires ReadReceipt(s.world.page).Pending? && WellFormed(ReceiptOf(frame)) && s.world.supplies == []
    ensures var t := Step(s, FrameArrived(frame, at));
      Wants(t, Record(ReceiptOf(frame), frame.payload)) && t.world == s.world
  {
    hide SendMessage, ReadReceipt, WellFormed, RequestIdOf, ReceiptOf, Judge, ErrorPayload, RecordedPayload,
         QueueReport, ForceZero, Inv;
    AcceptedLength(frame);
    RequestEchoed(frame);
    StepKeepsInv(s, FrameArrived(frame, at));
  }

  lemma BootLoaderRequested(s: Session, frame: CheckedFrame, at: nat)
    requires Inv(s) && s.link.negotiated && !Busy(s) && frame.messageType == ENTER_UF2_BOOTLOADER
    ensures var t := Step(s, FrameArrived(frame, at));
      Wants(t, BootLoader(frame.payload)) && t.world == s.world
  {
    hide SendMessage, RequestIdOf, Judge, ErrorPayload, QueueReport, ForceZero, ToBytes;
    AcceptedLength(frame);
    IdIsPayload(frame);
    StepKeepsInv(s, FrameArrived(frame, at));
  }

  lemma IdIsPayload(frame: CheckedFrame)
    requires frame.messageType == ENTER_UF2_BOOTLOADER
    ensures |frame.payload| == 4 && ToBytes(RequestIdOf(frame), 4) == frame.payload
  {
    hide ToBytes, FromBytes;
    AcceptedLength(frame);
    assert frame.payload[0..4] == frame.payload;
    FromBytesRoundTrip(frame.payload);
  }

  lemma RequestFirst(s: Session, e: Event, events: seq<Event>)
    ensures Run(s, [e] + events) == Run(Step(s, e), events)
  {
    hide Step;
    assert ([e] + events)[1..] == events;
  }

  /**
   * A valid receipt requested on a pending page is recorded, and acknowledged with the very payload of the
   * request, by the first tick after the endpoint took the neutral, whatever else happens in between short
   * of a reset, a new handshake, a third decode error, or a mount after that neutral; provided the host
   * takes the frames and the power lasts.
   */
  lemma ReceiptIsRecorded(s: Session, frame: CheckedFrame, at: nat, a: seq<Event>, b: seq<Event>, tick: nat)
    requires Inv(s) && s.link.negotiated && !Busy(s) && frame.messageType == RECORD_INSTALL_RECEIPT
    requires ReadReceipt(s.world.page).Pending? && WellFormed(ReceiptOf(frame))
    requires Willing(s.world, 4 * (|a| + |b| + 2)) && s.world.supplies == []
    requires Undisturbed(Step(s, FrameArrived(frame, at)), a + [HidAccepted] + b) && Mountless(b)
    ensures var t := Run(s, [FrameArrived(frame, at)] + (a + [HidAccepted] + b + [Ticked(tick)]));
      var wish := Record(ReceiptOf(frame), frame.payload);
      && Granted(t, wish, |s.world.log|)
      && ReadReceipt(t.world.page) == Recorded(ReceiptOf(frame)) && !t.job.requested
      && (Tickless(a + b) ==> EndsWithAnswer(t, wish))
  {
    hide Step, Run, Undisturbed, Wants, Willing, EndsWithAnswer, Inv, ReadReceipt, WellFormed, ReceiptOf, Answers;
    var t := Step(s, FrameArrived(frame, at));
    ReceiptRequested(s, frame, at);
    RequestFirst(s, FrameArrived(frame, at), a + [HidAccepted] + b + [Ticked(tick)]);
    WishIsGranted(t, a, b, tick, Record(ReceiptOf(frame), frame.payload));
  }

  /** A request for the boot loader is announced, with the id of the request, under the same conditions. */
  lemma BootLoaderIsAnnounced(s: Session, frame: CheckedFrame, at: nat, a: seq<Event>, b: seq<Event>, tick: nat)
    requires Inv(s) && s.link.negotiated && !Busy(s) && frame.messageType == ENTER_UF2_BOOTLOADER
    requires Willing(s.world, 4 * (|a| + |b| + 2))
    requires Undisturbed(Step(s, FrameArrived(frame, at)), a + [HidAccepted] + b) && Mountless(b)
    ensures var t := Run(s, [FrameArrived(frame, at)] + (a + [HidAccepted] + b + [Ticked(tick)]));
      && Granted(t, BootLoader(frame.payload), |s.world.log|) && t.uf2.ready
      && (Tickless(a + b) ==> EndsWithAnswer(t, BootLoader(frame.payload)))
  {
    hide Step, Run, Undisturbed, Wants, Willing, EndsWithAnswer, Inv, Answers;
    var t := Step(s, FrameArrived(frame, at));
    BootLoaderRequested(s, frame, at);
    RequestFirst(s, FrameArrived(frame, at), a + [HidAccepted] + b + [Ticked(tick)]);
    WishIsGranted(t, a, b, tick, BootLoader(frame.payload));
  }
}
