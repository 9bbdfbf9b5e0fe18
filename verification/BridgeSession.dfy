/** The session object of the firmware. Each method is the step of the same name of the session model. */
module BridgeSession {
  import opened Bits
  import opened Protocol
  import opened Receipt
  import opened HidQueue
  import opened RumbleQueue
  import opened SessionModel
  import ReceiptFlash

  /** What the session sends to: the CDC queue and the flash page of the receipt. */
  class SessionSink {
    var replies: seq<bool>
    var supplies: seq<Supply>
    const page: array<byte>
    var wire: seq<byte>
    /** What the page holds. */
    ghost var flash: Page
    ghost var log: seq<Out>

    ghost predicate Valid()
      reads this`flash, page
    {
      page.Length == PAGE_SIZE && page[..] == flash
    }

    ghost function View(): World
      reads this
    {
      World(replies, supplies, flash, wire, log)
    }

    method QueueCdc(data: array<byte>, length: nat) returns (ok: bool)
      requires length <= data.Length
      modifies this`replies, this`wire
      ensures ok == (old(replies) != [] && old(replies)[0])
      ensures replies == if old(replies) == [] then [] else old(replies)[1..]
      ensures wire == old(wire) + if ok then data[..length] else []
    {
      ok := replies != [] && replies[0];
      if replies != [] {
        replies := replies[1..];
      }
      if ok {
        wire := wire + data[..length];
      }
    }

    method InstallReceipt() returns (status: Status)
      requires Valid()
      ensures status == ReadReceipt(flash)
    {
      status := ReceiptFlash.ReadInstallReceipt(page);
    }

    method RecordInstallReceipt(receipt: ReceiptData) returns (ok: bool)
      requires Valid()
      modifies this`supplies, this`flash, page
      ensures Valid()
      ensures var supply := if old(supplies) == [] then Steady else old(supplies)[0];
        var written := WriteReceipt(old(flash), receipt, supply);
        flash == written.page && ok == written.ok
      ensures supplies == if old(supplies) == [] then [] else old(supplies)[1..]
    {
      hide WriteReceipt;
      var supply := Steady;
      if supplies != [] {
        supply := supplies[0];
        supplies := supplies[1..];
      }
      var writer := new ReceiptFlash.FlashWriter(page, supply);
      ok := ReceiptFlash.WriteInstallReceipt(page, receipt, writer);
      flash := page[..];
    }
  }

  class BridgeSession {
    const sink: SessionSink
    // The fields of the source, grouped: the CDC link, the boot loader transition, the receipt request,
    // the report queue and the rumble feedback.
    var link: Link
    var uf2: Uf2
    var job: ReceiptJob
    var dataWatchdogArmed: bool
    var transmitSequence: uint16
    var lastDataMs: uint32
    var hid: Hid
    var rumble: Rumble

    ghost predicate Valid()
      reads sink`flash, sink.page
    {
      sink.Valid()
    }

    ghost function View(): Session
      reads this, sink
    {
      Session(link, transmitSequence, dataWatchdogArmed, lastDataMs, hid, rumble, uf2, job, sink.View())
    }

    constructor (sink: SessionSink)
      requires sink.Valid()
      ensures this.sink == sink && Valid()
      ensures View() == PowerOn(old(sink.View()))
    {
      this.sink := sink;
      link, uf2, job := INITIAL_LINK, NO_UF2, NO_JOB;
      transmitSequence, dataWatchdogArmed, lastDataMs := 0, false, 0;
      hid, rumble := INITIAL_HID, INITIAL_RUMBLE;
    }

    // ----- Events -----

    method OnCdcConnected(now: uint32)
      requires Valid()
      modifies this
      ensures Valid()
      ensures View() == SessionModel.OnCdcConnected(old(View()), now)
    {
      hide QueueReport, ForceZero, RumbleQueue.Quarantine, SessionSink.Valid;
      link := link.(cdcConnected := true);
      lastDataMs := now;
      ResetSession(true);
      BeginRumbleQuarantine(now);
    }

    method OnCdcDisconnected()
      requires Valid()
      modifies this
      ensures Valid()
      ensures View() == SessionModel.OnCdcDisconnected(old(View()))
    {
      hide QueueReport, ForceZero, RumbleQueue.Quarantine, SessionSink.Valid;
      link := link.(cdcConnected := false);
      ResetSession(false);
    }

    method OnHidMounted(now: uint32)
      requires Valid()
      modifies this, sink`log
      ensures Valid()
      ensures View() == SessionModel.OnHidMounted(old(View()), now)
    {
      hide QueueReport, ForceZero, RumbleQueue.Quarantine, SessionSink.Valid;
      sink.log := sink.log + [Mounted];
      hid := hid.(lastValid := false);
      ForceNeutral(true);
      BeginRumbleQuarantine(now);
    }

    method OnFrame(frame: Frame, now: uint32)
      requires Valid() && Accepted(frame)
      modifies this, sink`replies, sink`wire, sink`log
      ensures Valid()
      ensures View() == SessionModel.OnFrame(old(View()), frame, now)
    {
      hide Judge, SessionModel.SendMessage, SessionModel.RecordInstallReceipt, QueueReport, ForceZero,
           RumbleQueue.Quarantine, SessionSink.Valid;
      AcceptedLength(frame);
      link := link.(consecutiveErrors := 0, faulted := false);
      if frame.messageType == HELLO {
        OnHello(frame, now);
        return;
      }
      if !link.negotiated {
        return;
      }
      CheckSequence(frame);
      if frame.messageType == GAMEPAD_STATE {
        if !uf2.requested && !job.requested {
          ApplyGamepad(frame, now);
        }
      } else if frame.messageType == NEUTRAL {
        if !uf2.requested && !job.requested {
          lastDataMs := now;
          dataWatchdogArmed := false;
          ForceNeutral(false);
        }
      } else if frame.messageType == PING {
        var _ := SendMessage(PONG, frame.payload[0..4]);
      } else if frame.messageType == ENTER_UF2_BOOTLOADER {
        BeginUf2Bootloader(frame);
      } else if frame.messageType == RECORD_INSTALL_RECEIPT {
        if uf2.requested {
          var _ := SendError(UF2_TRANSITION_BUSY, RequestIdOf(frame));
        } else {
          RecordInstallReceipt(frame);
        }
      }
    }

    method OnHello(frame: Frame, now: uint32)
      requires Valid() && Accepted(frame) && frame.messageType == HELLO
      modifies this, sink`replies, sink`wire, sink`log
      ensures Valid()
      ensures View() == SessionModel.OnHello(old(View()), frame, now)
    {
      hide Judge, SessionModel.SendMessage, QueueReport, ForceZero, RumbleQueue.Quarantine, SessionSink.Valid;
      AcceptedLength(frame);
      MakeSafe();
      link := link.(negotiated := false, sequenceValid := true, expectedSequence := Next16(frame.sequence));
      if frame.payload[0] <= PROTOCOL_VERSION && frame.payload[1] >= PROTOCOL_VERSION {
        var ok := SendMessage(HELLO_RESPONSE, [PROTOCOL_VERSION]);
        link := link.(negotiated := ok);
        if ok {
          BeginRumbleQuarantine(now);
        }
      }
      link := link.(deviceInfoPending := link.negotiated);
    }

    method OnDecodeError()
      requires Valid()
      modifies this
      ensures Valid()
      ensures View() == SessionModel.OnDecodeError(old(View()))
    {
      hide QueueReport, ForceZero, RumbleQueue.Quarantine, SessionSink.Valid;
      link := link.(consecutiveErrors := SaturatingNext(link.consecutiveErrors));
      if link.consecutiveErrors >= 3 {
        link := link.(faulted := true, negotiated := false, sequenceValid := false);
        MakeSafe();
      }
    }

    method OnXinputRumble(feedback: Feedback, now: uint32)
      requires Valid()
      modifies this
      ensures Valid()
      ensures View() == SessionModel.OnXinputRumble(old(View()), feedback, now)
    {
      hide QueueReport, ForceZero, RumbleQueue.Quarantine, SessionSink.Valid;
      if !link.negotiated || uf2.requested || job.requested {
        return;
      }
      if !Active(feedback) {
        rumble := rumble.(quarantined := false);
        ForceRumbleZero();
        return;
      }
      if rumble.quarantined {
        rumble := rumble.(quietSinceMs := now);
        return;
      }
      rumble := rumble.(lastSourceMs := now, leaseArmed := true);
      QueueRumble(feedback, false);
    }

    method Tick(now: uint32)
      requires Valid()
      modifies this, sink, sink.page
      ensures Valid()
      ensures View() == SessionModel.Tick(old(View()), now)
    {
      hide SessionModel.ServiceDeviceInfo, SessionModel.ServiceRumble, SessionModel.ServiceInstallReceipt,
           SessionModel.ServiceUf2, QueueReport, ForceZero, RumbleQueue.Quarantine, SessionSink.Valid;
      if !uf2.requested && dataWatchdogArmed && Elapsed(now, lastDataMs) >= DATA_WATCHDOG_MS {
        dataWatchdogArmed := false;
        link := link.(faulted := true);
        MakeSafe();
      }
      ServiceDeviceInfo();
      ServiceRumble(now);
      ServiceInstallReceipt();
      ServiceUf2Bootloader();
    }

    method MarkHidReportSent()
      requires Valid()
      modifies this, sink`log
      ensures Valid()
      ensures View() == OnHidAccepted(old(View()))
    {
      hide SessionSink.Valid;
      if !hid.pending {
        return;
      }
      sink.log := sink.log + [HidSent(hid.pendingReport)];
      hid := hid.(last := hid.pendingReport, lastValid := true);
      var wasSafetyNeutral := hid.pendingIsSafety;
      hid := hid.(pending := false, pendingIsSafety := false);
      if wasSafetyNeutral && hid.deferred {
        var deferred := hid.deferredReport;
        hid := hid.(deferred := false);
        QueueHid(deferred, false);
      }
    }

    // ----- State changes -----

    method ResetSession(keepConnection: bool)
      requires Valid()
      modifies this
      ensures Valid()
      ensures View() == SessionModel.ResetSession(old(View()), keepConnection)
    {
      hide QueueReport, QueueFeedback, ForceZero, RumbleQueue.Quarantine, SessionSink.Valid;
      link := link.(negotiated := false, deviceInfoPending := false, sequenceValid := false,
                    consecutiveErrors := 0, faulted := false);
      dataWatchdogArmed := false;
      hid := hid.(deferred := false);
      uf2 := NO_UF2;
      job := NO_JOB;
      rumble := rumble.(quarantined := false);
      ForceRumbleZero();
      if !keepConnection {
        transmitSequence := 0;
      }
      ForceNeutral(true);
    }

    method CheckSequence(frame: Frame)
      requires Valid()
      modifies this
      ensures Valid()
      ensures View() == SessionModel.CheckSequence(old(View()), frame)
    {
      hide QueueReport, ForceZero, RumbleQueue.Quarantine, SessionSink.Valid;
      if link.sequenceValid && frame.sequence != link.expectedSequence {
        MakeSafe();
      }
      link := link.(sequenceValid := true, expectedSequence := Next16(frame.sequence));
    }

    method ApplyGamepad(frame: Frame, now: uint32)
      requires Valid() && Accepted(frame) && frame.messageType == GAMEPAD_STATE
      modifies this
      ensures Valid()
      ensures View() == SessionModel.ApplyGamepad(old(View()), ReportOf(frame), now)
    {
      hide SessionSink.Valid;
      var report := ReportOf(frame);
      lastDataMs := now;
      dataWatchdogArmed := report != NEUTRAL_REPORT;
      QueueHid(report, false);
    }

    method ForceNeutral(safety: bool)
      requires Valid()
      modifies this`dataWatchdogArmed, this`hid
      ensures Valid()
      ensures !dataWatchdogArmed && hid == QueueReport(old(hid), NEUTRAL_REPORT, safety)
    {
      hide SessionSink.Valid;
      dataWatchdogArmed := false;
      QueueHid(NEUTRAL_REPORT, safety);
    }

    method ForceRumbleZero()
      requires Valid()
      modifies this`rumble
      ensures Valid()
      ensures rumble == ForceZero(old(rumble))
    {
      hide SessionSink.Valid;
      rumble := rumble.(leaseArmed := false, refreshArmed := false);
      QueueRumble(ZERO, true);
    }

    /** The neutral report and the zero rumble that every safety event queues. */
    method MakeSafe()
      requires Valid()
      modifies this`dataWatchdogArmed, this`hid, this`rumble
      ensures Valid()
      ensures !dataWatchdogArmed
      ensures hid == QueueReport(old(hid), NEUTRAL_REPORT, true) && rumble == ForceZero(old(rumble))
    {
      hide QueueReport, ForceZero, SessionSink.Valid;
      ForceNeutral(true);
      ForceRumbleZero();
    }

    method BeginRumbleQuarantine(now: uint32)
      requires Valid()
      modifies this`rumble
      ensures Valid()
      ensures rumble == RumbleQueue.Quarantine(old(rumble), now)
    {
      hide SessionSink.Valid;
      rumble := rumble.(quarantined := true, quietSinceMs := now);
      ForceRumbleZero();
    }

    method QueueHid(report: Report, safety: bool)
      requires Valid()
      modifies this`hid
      ensures Valid()
      ensures hid == QueueReport(old(hid), report, safety)
    {
      hide SessionSink.Valid;
      if hid.pendingIsSafety && !safety {
        hid := hid.(deferredReport := report, deferred := true);
        return;
      }
      if safety {
        hid := hid.(deferred := false);
      }
      if hid.lastValid && report == hid.last {
        hid := hid.(pending := false, pendingIsSafety := false);
        return;
      }
      hid := hid.(pendingReport := report, pending := true, pendingIsSafety := safety);
    }

    method QueueRumble(feedback: Feedback, safety: bool)
      requires Valid()
      modifies this`rumble
      ensures Valid()
      ensures rumble == QueueFeedback(old(rumble), feedback, safety)
    {
      hide SessionSink.Valid;
      rumble := rumble.(desired := feedback, refreshArmed := Active(feedback));
      if rumble.pendingIsSafetyZero && !safety && Active(feedback) {
        rumble := rumble.(deferredFeedback := feedback, deferred := true);
        return;
      }
      if safety {
        rumble := rumble.(deferred := false);
      }
      rumble := rumble.(pendingFeedback := feedback, pending := true, pendingIsSafetyZero := safety,
                        pendingIsRefresh := false);
    }

    // ----- Requests -----

    method BeginUf2Bootloader(frame: Frame)
      requires Valid() && Accepted(frame) && frame.messageType == ENTER_UF2_BOOTLOADER
      modifies this, sink`replies, sink`wire, sink`log
      ensures Valid()
      ensures View() == BeginUf2(old(View()), frame)
    {
      hide Judge, SessionModel.SendMessage, RequestIdOf, ErrorPayload, QueueReport, ForceZero,
           RumbleQueue.Quarantine, SessionSink.Valid;
      AcceptedLength(frame);
      var requestId := RequestIdOf(frame);
      if job.requested {
        var _ := SendError(UF2_TRANSITION_BUSY, requestId);
        return;
      }
      if uf2.requested {
        if requestId == uf2.requestId && uf2.ready {
          uf2 := uf2.(readyPending := true);
        } else if requestId != uf2.requestId {
          var _ := SendError(UF2_TRANSITION_BUSY, requestId);
        }
        return;
      }
      uf2 := uf2.(requested := true, requestId := requestId);
      dataWatchdogArmed := false;
      MakeSafe();
    }

    method RecordInstallReceipt(frame: Frame)
      requires Valid() && Accepted(frame) && frame.messageType == RECORD_INSTALL_RECEIPT
      modifies this, sink`replies, sink`wire, sink`log
      ensures Valid()
      ensures View() == SessionModel.RecordInstallReceipt(old(View()), frame)
    {
      hide Judge, SessionModel.SendMessage, RequestIdOf, ErrorPayload, RecordedPayload, ReadReceipt, ReceiptOf,
           SessionSink.Valid;
      AcceptedLength(frame);
      var requestId := RequestIdOf(frame);
      var requested := ReceiptOf(frame);
      var status := sink.InstallReceipt();
      if status.Recorded? {
        if status.receipt == requested {
          var _ := SendInstallReceiptRecorded(requestId, status.receipt);
        } else {
          var _ := SendError(INSTALL_RECEIPT_REJECTED, requestId);
        }
        return;
      }
      if job.requested {
        if requestId != job.requestId || requested != job.receipt {
          var _ := SendError(INSTALL_RECEIPT_REJECTED, requestId);
        }
        return;
      }
      job := job.(requested := true, requestId := requestId, receipt := requested);
      dataWatchdogArmed := false;
      MakeSafe();
    }

    // ----- Services of the tick -----

    method ServiceDeviceInfo()
      requires Valid()
      modifies this, sink`replies, sink`wire, sink`log
      ensures Valid()
      ensures View() == SessionModel.ServiceDeviceInfo(old(View()))
    {
      hide SessionModel.SendMessage, ReadReceipt, ReceiptBytes, ToBytes, SessionSink.Valid;
      if !link.negotiated || !link.deviceInfoPending {
        return;
      }
      var receipt := sink.InstallReceipt();
      var payload := [DEVICE_INFO_FORMAT, Low(FIRMWARE_REVISION), High(FIRMWARE_REVISION)] + ToBytes(CAPABILITIES, 4)
                     + [StatusCode(receipt)];
      if receipt.Recorded? {
        payload := payload + ReceiptBytes(receipt.receipt);
      }
      payload := payload + [TARGET_TAG, |TARGET_ID|] + TARGET_ID;
      assert payload == DeviceInfoPayload(receipt);
      var ok := SendMessage(DEVICE_INFO, payload);
      if ok {
        link := link.(deviceInfoPending := false);
      }
    }

    method ServiceRumble(now: uint32)
      requires Valid()
      modifies this, sink`replies, sink`wire, sink`log
      ensures Valid()
      ensures View() == SessionModel.ServiceRumble(old(View()), now)
    {
      hide SessionModel.SendMessage, RumblePayload, Transmitted, Timers, SessionSink.Valid;
      if !link.negotiated {
        return;
      }
      RumbleTimers(now);
      if !rumble.pending {
        return;
      }
      var payload := RumblePayload(rumble.pendingFeedback);
      var ok := SendMessage(RUMBLE, payload);
      if !ok {
        return;
      }
      RumbleTransmitted(now);
    }

    method RumbleTimers(now: uint32)
      requires Valid()
      modifies this`rumble
      ensures Valid()
      ensures rumble == Timers(old(rumble), now)
    {
      hide QueueFeedback, SessionSink.Valid;
      if rumble.quarantined && Elapsed(now, rumble.quietSinceMs) >= STARTUP_QUIET_MS {
        rumble := rumble.(quarantined := false);
      }
      if rumble.leaseArmed && Elapsed(now, rumble.lastSourceMs) >= SOURCE_LEASE_MS {
        ForceRumbleZero();
      }
      if !rumble.pending && rumble.refreshArmed && Elapsed(now, rumble.lastTxMs) >= REFRESH_MS {
        rumble := rumble.(pendingFeedback := rumble.desired, pending := true, pendingIsSafetyZero := false,
                          pendingIsRefresh := true);
      }
    }

    method RumbleTransmitted(now: uint32)
      requires Valid()
      modifies this`rumble
      ensures Valid()
      ensures rumble == Transmitted(old(rumble), now)
    {
      hide SessionSink.Valid;
      rumble := rumble.(lastTxMs := now);
      if rumble.pendingIsSafetyZero && rumble.deferred {
        rumble := rumble.(pendingFeedback := rumble.deferredFeedback, pendingIsSafetyZero := false,
                          pendingIsRefresh := false, deferred := false, pending := true);
        return;
      }
      rumble := rumble.(pending := false, pendingIsSafetyZero := false, pendingIsRefresh := false);
    }

    method ServiceInstallReceipt()
      requires Valid()
      modifies this, sink, sink.page
      ensures Valid()
      ensures View() == SessionModel.ServiceInstallReceipt(old(View()))
    {
      hide SessionModel.SendMessage, ReadReceipt, RecordedPayload, SessionModel.SendReceiptError, WriteReceipt,
           SessionSink.Valid;
      if !job.requested || hid.pending || rumble.pending {
        return;
      }
      var status := sink.InstallReceipt();
      if status.Invalid? {
        SendInstallReceiptError(INSTALL_RECEIPT_REJECTED);
        return;
      }
      if status.Pending? {
        sink.log := sink.log + [ReceiptWrite(job.receipt)];
        var recorded := sink.RecordInstallReceipt(job.receipt);
        if !recorded {
          SendInstallReceiptError(INSTALL_RECEIPT_REJECTED);
          return;
        }
        status := sink.InstallReceipt();
      }
      if !status.Recorded? || status.receipt != job.receipt {
        SendInstallReceiptError(INSTALL_RECEIPT_READBACK_MISMATCH);
        return;
      }
      var ok := SendInstallReceiptRecorded(job.requestId, status.receipt);
      if ok {
        job := job.(requested := false);
      }
    }

    method ServiceUf2Bootloader()
      requires Valid()
      modifies this, sink`replies, sink`wire, sink`log
      ensures Valid()
      ensures View() == ServiceUf2(old(View()))
    {
      hide SessionModel.SendMessage, ToBytes, SessionSink.Valid;
      if !uf2.requested || hid.pending || rumble.pending {
        return;
      }
      if !uf2.ready || uf2.readyPending {
        var ok := SendMessage(UF2_BOOTLOADER_READY, ToBytes(uf2.requestId, 4));
        if ok {
          uf2 := uf2.(ready := true, readyPending := false);
        }
      }
    }

    // ----- Sending -----

    method SendInstallReceiptRecorded(requestId: uint32, receipt: ReceiptData) returns (ok: bool)
      requires Valid()
      modifies this`transmitSequence, sink`replies, sink`wire, sink`log
      ensures Valid()
      ensures Sent(View(), ok) == SessionModel.SendMessage(old(View()), INSTALL_RECEIPT_RECORDED,
                                                           RecordedPayload(requestId, receipt))
    {
      hide SessionSink.Valid;
      ok := SendMessage(INSTALL_RECEIPT_RECORDED, RecordedPayload(requestId, receipt));
    }

    method SendInstallReceiptError(code: uint16)
      requires Valid()
      modifies this`job, this`transmitSequence, sink`replies, sink`wire, sink`log
      ensures Valid()
      ensures View() == SendReceiptError(old(View()), code)
    {
      hide SessionModel.SendMessage, SessionSink.Valid;
      var ok := SendError(code, job.requestId);
      if ok {
        job := job.(requested := false);
      }
    }

    method SendError(code: uint16, requestId: uint32) returns (ok: bool)
      requires Valid()
      modifies this`transmitSequence, sink`replies, sink`wire, sink`log
      ensures Valid()
      ensures Sent(View(), ok) == SessionModel.SendError(old(View()), code, requestId)
    {
      hide SessionModel.SendMessage, SessionSink.Valid;
      ok := SendMessage(ERROR, ErrorPayload(code, requestId));
    }

    method SendMessage(messageType: byte, payload: seq<byte>) returns (ok: bool)
      requires Valid() && |payload| <= MAX_PAYLOAD
      modifies this`transmitSequence, sink`replies, sink`wire, sink`log
      ensures Valid()
      ensures Sent(View(), ok) == SessionModel.SendMessage(old(View()), messageType, payload)
    {
      hide EncodeFrame, SessionSink.Valid;
      var frame := new byte[MAX_FRAME];
      var source := new byte[|payload|](i requires 0 <= i < |payload| => payload[i]);
      assert source[..|payload|] == payload;
      var length := EncodeFrameInto(transmitSequence, messageType, source, |payload|, frame, MAX_FRAME);
      ok := sink.QueueCdc(frame, length);
      if ok {
        sink.log := sink.log + [CdcSent(transmitSequence, messageType, payload)];
        transmitSequence := Next16(transmitSequence);
      }
    }
  }
}
