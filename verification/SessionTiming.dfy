/**
 * The two dead-man timers in true time. The firmware only sees a clock that wraps every 2^32 ms; its
 * timers still tell true durations as long as it ticks often enough.
 */
module SessionTiming {
  import opened Bits
  import opened Protocol
  import opened Receipt
  import opened HidQueue
  import opened RumbleQueue
  import opened SessionModel
  import opened SessionSafety
  import opened SessionLog
  import opened SessionHid
  import opened SessionRumble

  const CLOCK_PERIOD: nat := 0x1_0000_0000

  predicate Timed(e: Event) {
    e.CdcConnected? || e.HidMounted? || e.FrameArrived? || e.RumbleArrived? || e.Ticked?
  }

  function TimeAfter(now: nat, e: Event): nat {
    if Timed(e) then e.at else now
  }

  function LastTick(lastTick: nat, e: Event): nat {
    if e.Ticked? then e.at else lastTick
  }

  /** Time does not run backwards, and no two ticks lie further apart than the clock period less `limit`. */
  predicate Timely(now: nat, lastTick: nat, events: seq<Event>, limit: nat)
    decreases |events|
  {
    events == [] ||
    (var e := events[0];
     && TimeAfter(now, e) >= now
     && (e.Ticked? ==> e.at - lastTick < CLOCK_PERIOD - limit)
     && Timely(TimeAfter(now, e), LastTick(lastTick, e), events[1..], limit))
  }

  function EndTime(now: nat, events: seq<Event>): nat
    decreases |events|
  {
    if events == [] then now else EndTime(TimeAfter(now, events[0]), events[1..])
  }

  function EndTick(lastTick: nat, events: seq<Event>): nat
    decreases |events|
  {
    if events == [] then lastTick else EndTick(LastTick(lastTick, events[0]), events[1..])
  }

  lemma {:induction false} EndsWithTick(now: nat, lastTick: nat, events: seq<Event>)
    requires events != [] && events[|events| - 1].Ticked?
    ensures EndTime(now, events) == EndTick(lastTick, events) == events[|events| - 1].at
    decreases |events|
  {
    if |events| > 1 {
      EndsWithTick(TimeAfter(now, events[0]), LastTick(lastTick, events[0]), events[1..]);
    }
  }

  // ----- The data watchdog -----

  lemma SendKeepsTime(s: Session, messageType: byte, payload: seq<byte>)
    requires |payload| <= MAX_PAYLOAD
    ensures SendMessage(s, messageType, payload).session.lastDataMs == s.lastDataMs
  {
    hide EncodeFrame;
  }

  lemma TickKeepsTime(s: Session, now: uint32)
    ensures Tick(s, now).lastDataMs == s.lastDataMs
  {
    hide SendMessage, ReadReceipt, DeviceInfoPayload, ServiceInstallReceipt, ToBytes, QueueReport, ForceZero,
         RumblePayload, Timers, Transmitted;
    var a := ServiceWatchdog(s, now);
    SendKeepsTime(a, DEVICE_INFO, DeviceInfoPayload(ReadReceipt(a.world.page)));
    var b := ServiceDeviceInfo(a);
    var t := b.(rumble := Timers(b.rumble, now));
    SendKeepsTime(t, RUMBLE, RumblePayload(t.rumble.pendingFeedback));
    var c := ServiceRumble(b, now);
    ReceiptServiceKeepsTime(c);
    var d := ServiceInstallReceipt(c);
    SendKeepsTime(d, UF2_BOOTLOADER_READY, ToBytes(d.uf2.requestId, 4));
  }

  lemma ReceiptServiceKeepsTime(s: Session)
    ensures ServiceInstallReceipt(s).lastDataMs == s.lastDataMs
  {
    hide ReadReceipt, RecordOnPage, AcknowledgeReceipt, SendReceiptError;
    RecordingStaysOutside(s);
    AnswersKeepTime(s);
    AnswersKeepTime(RecordOnPage(s).session);
  }

  lemma AnswersKeepTime(s: Session)
    ensures AcknowledgeReceipt(s).lastDataMs == SendReceiptError(s, INSTALL_RECEIPT_REJECTED).lastDataMs == s.lastDataMs
  {
    hide SendMessage, ReadReceipt, ErrorPayload, RecordedPayload;
    SendKeepsTime(s, ERROR, ErrorPayload(INSTALL_RECEIPT_REJECTED, s.job.requestId));
    SendKeepsTime(s, ERROR, ErrorPayload(INSTALL_RECEIPT_READBACK_MISMATCH, s.job.requestId));
    SendKeepsTime(s, INSTALL_RECEIPT_RECORDED, RecordedPayload(s.job.requestId, s.job.receipt));
  }

  lemma FrameTime(s: Session, frame: CheckedFrame, at: nat)
    ensures OnFrame(s, frame, Clock(at)).lastDataMs
         == if Applied(s, FrameArrived(frame, at)).Some? then Clock(at) else s.lastDataMs
  {
    hide SendMessage, ReportOf, RequestIdOf, ReceiptOf, ErrorPayload, RecordedPayload, ReadReceipt, Judge,
         QueueReport, ForceZero;
    AcceptedLength(frame);
    var heard := s.(link := s.link.(consecutiveErrors := 0, faulted := false));
    if frame.messageType == HELLO {
      SendKeepsTime(MakeSafe(heard).(link := HelloLink(heard.link, frame)), HELLO_RESPONSE, [PROTOCOL_VERSION]);
    } else if heard.link.negotiated {
      var checked := CheckSequence(heard, frame);
      if frame.messageType == PING {
        SendKeepsTime(checked, PONG, frame.payload[0..4]);
      } else if frame.messageType == ENTER_UF2_BOOTLOADER {
        SendKeepsTime(checked, ERROR, ErrorPayload(UF2_TRANSITION_BUSY, RequestIdOf(frame)));
      } else if frame.messageType == RECORD_INSTALL_RECEIPT {
        var id := RequestIdOf(frame);
        SendKeepsTime(checked, ERROR, ErrorPayload(UF2_TRANSITION_BUSY, id));
        SendKeepsTime(checked, ERROR, ErrorPayload(INSTALL_RECEIPT_REJECTED, id));
        SendKeepsTime(checked, INSTALL_RECEIPT_RECORDED, RecordedPayload(id, ReceiptOf(frame)));
      }
    }
  }

  lemma DataTimeEvolves(s: Session, e: Event)
    ensures Applied(s, e).Some? ==> Step(s, e).lastDataMs == Clock(e.at)
    ensures Applied(s, e).None? && !SafetyEvent(s, e) ==> Step(s, e).lastDataMs == s.lastDataMs
  {
    hide OnFrame, Tick, QueueReport, MarkSent, ForceZero, FromSource, RumbleQueue.Quarantine;
    match e
    case CdcConnected(_) =>
    case CdcDisconnected =>
    case HidMounted(_) =>
    case FrameArrived(frame, at) => FrameTime(s, frame, at);
    case DecodeFailed =>
    case RumbleArrived(_, _) =>
    case Ticked(at) => TickKeepsTime(s, Clock(at));
    case HidAccepted =>
    case PowerCycled =>
  }

  /** A gamepad frame that brought the present target, less than 100 ms before the last tick or after it. */
  predicate Feeds(e: Event, s: Session, now: nat, lastTick: nat) {
    && e.FrameArrived? && e.frame.messageType == GAMEPAD_STATE
    && ReportOf(e.frame) == Target(s.hid)
    && s.lastDataMs == Clock(e.at)
    && e.at <= now
    && lastTick < e.at + DATA_WATCHDOG_MS
  }

  ghost predicate Fed(s: Session, seen: seq<Event>, now: nat, lastTick: nat) {
    Target(s.hid) != NEUTRAL_REPORT ==> exists i | 0 <= i < |seen| :: Feeds(seen[i], s, now, lastTick)
  }

  lemma TickTellsTrueTime(s: Session, fed: Event, at: nat, now: nat, lastTick: nat)
    requires Feeds(fed, s, now, lastTick) && now <= at && at - lastTick < CLOCK_PERIOD - DATA_WATCHDOG_MS
    requires Inv(s) && Target(s.hid) != NEUTRAL_REPORT && !SafetyEvent(s, Ticked(at))
    ensures at - fed.at < DATA_WATCHDOG_MS
  {
    ElapsedIsExact(at, fed.at);
  }

  lemma StepFeeds(s: Session, e: Event, seen: seq<Event>, now: nat, lastTick: nat)
    requires Inv(s) && Fed(s, seen, now, lastTick) && lastTick <= now
    requires TimeAfter(now, e) >= now
    requires e.Ticked? ==> e.at - lastTick < CLOCK_PERIOD - DATA_WATCHDOG_MS
    ensures Fed(Step(s, e), seen + [e], TimeAfter(now, e), LastTick(lastTick, e))
  {
    hide Step, Inv, SafetyEvent, ReportOf;
    var t := Step(s, e);
    TargetIsLatest(s, e);
    DataTimeEvolves(s, e);
    if Target(t.hid) != NEUTRAL_REPORT {
      if Applied(s, e).Some? {
        assert (seen + [e])[|seen|] == e;
        assert Feeds((seen + [e])[|seen|], t, TimeAfter(now, e), LastTick(lastTick, e));
      } else {
        var i :| 0 <= i < |seen| && Feeds(seen[i], s, now, lastTick);
        assert (seen + [e])[i] == seen[i];
        if e.Ticked? {
          TickTellsTrueTime(s, seen[i], e.at, now, lastTick);
        }
        assert Feeds((seen + [e])[i], t, TimeAfter(now, e), LastTick(lastTick, e));
      }
    }
  }

  lemma {:induction false} RunFeeds(s: Session, events: seq<Event>, seen: seq<Event>, now: nat, lastTick: nat)
    requires Inv(s) && Fed(s, seen, now, lastTick) && lastTick <= now
    requires Timely(now, lastTick, events, DATA_WATCHDOG_MS)
    ensures Fed(Run(s, events), seen + events, EndTime(now, events), EndTick(lastTick, events))
    decreases |events|
  {
    hide Step, Inv, Fed;
    if events == [] {
      assert seen + events == seen;
    } else {
      var e := events[0];
      StepFeeds(s, e, seen, now, lastTick);
      StepKeepsInv(s, e);
      RunFeeds(Step(s, e), events[1..], seen + [e], TimeAfter(now, e), LastTick(lastTick, e));
      assert (seen + [e]) + events[1..] == seen + events;
    }
  }

  /**
   * The dead-man switch: in any run from power on, right after a tick the controller heads for a
   * non-neutral report only if that very report arrived in a gamepad frame less than 100 ms of true time
   * before the tick. The clock may wrap any number of times, provided no two ticks are 2^32 - 100 ms apart.
   */
  lemma DeadManSwitch(world: World, start: nat, events: seq<Event>)
    requires events != [] && events[|events| - 1].Ticked?
    requires Timely(start, start, events, DATA_WATCHDOG_MS)
    ensures var s, tick := Run(PowerOn(world), events), events[|events| - 1].at;
      Target(s.hid) != NEUTRAL_REPORT ==>
        exists i | 0 <= i < |events| ::
          && events[i].FrameArrived? && events[i].frame.messageType == GAMEPAD_STATE
          && ReportOf(events[i].frame) == Target(s.hid)
          && events[i].at <= tick < events[i].at + DATA_WATCHDOG_MS
  {
    hide Step, Inv, ReportOf;
    PowerOnIsSafe(world);
    RunFeeds(PowerOn(world), events, [], start, start);
    EndsWithTick(start, start, events);
    var now := events[|events| - 1].at;
    assert [] + events == events;
    var s := Run(PowerOn(world), events);
    if Target(s.hid) != NEUTRAL_REPORT {
      var i :| 0 <= i < |events| && Feeds(events[i], s, now, now);
    }
  }

  lemma PowerOnIsSafe(world: World)
    ensures Inv(PowerOn(world)) && Target(PowerOn(world).hid) == NEUTRAL_REPORT
    ensures PowerOn(world).rumble.desired == ZERO
  {
  }

  /** In every reachable state the watchdog is armed exactly while the target is not neutral. */
  lemma WatchdogGuardsTarget(s: Session)
    requires Reachable(s)
    ensures s.watchdogArmed <==> Target(s.hid) != NEUTRAL_REPORT
    ensures Target(s.hid) != NEUTRAL_REPORT ==> s.link.negotiated && !s.uf2.requested && !s.job.requested
  {
    ReachableStates(s);
  }

  // ----- The rumble source lease -----

  /** A packet of the host driver that asked for the present rumble. */
  predicate Drives(e: Event, s: Session, now: nat, lastTick: nat) {
    && e.RumbleArrived?
    && e.feedback == s.rumble.desired
    && s.rumble.lastSourceMs == Clock(e.at)
    && e.at <= now
    && lastTick < e.at + SOURCE_LEASE_MS
  }

  ghost predicate Driven(s: Session, seen: seq<Event>, now: nat, lastTick: nat) {
    Active(s.rumble.desired) ==> exists i | 0 <= i < |seen| :: Drives(seen[i], s, now, lastTick)
  }

  predicate SameDrive(r: Rumble, t: Rumble) {
    t.desired == r.desired && t.lastSourceMs == r.lastSourceMs
  }

  lemma TimersKeepDrive(r: Rumble, now: uint32)
    ensures Active(Timers(r, now).desired) ==> SameDrive(r, Timers(r, now)) && !LeaseExpired(r, now)
  {
    hide Elapsed, ForceZero;
    ForcingStops(r.(quarantined := false), now);
    ForcingStops(r, now);
  }

  lemma SendingKeepsDrive(r: Rumble, now: uint32)
    ensures SameDrive(r, Transmitted(r, now))
  {
  }

  lemma ForcingStops(r: Rumble, now: uint32)
    ensures !Active(ForceZero(r).desired) && !Active(RumbleQueue.Quarantine(r, now).desired)
    ensures !ForceZero(r).leaseArmed && !ForceZero(r).refreshArmed
  {
  }

  lemma SourceDrives(r: Rumble, f: Feedback, now: uint32)
    requires Active(FromSource(r, f, now).desired)
    ensures SameDrive(r, FromSource(r, f, now))
      || (FromSource(r, f, now).desired == f && FromSource(r, f, now).lastSourceMs == now)
  {
  }

  /** The desired rumble changes to something active only when a packet of the driver says so. */
  lemma OnlySourcesDrive(s: Session, e: Event)
    requires Active(Step(s, e).rumble.desired)
    ensures var r := Step(s, e).rumble;
      || (e.RumbleArrived? && r.desired == e.feedback && r.lastSourceMs == Clock(e.at))
      || (SameDrive(s.rumble, r) && (e.Ticked? && s.link.negotiated ==> !LeaseExpired(s.rumble, Clock(e.at))))
  {
    hide Step, Rumbles, RumblePayload, SafetyEvent, Timers, Transmitted, ForceZero, RumbleQueue.Quarantine,
         FromSource, LeaseExpired;
    RumbleEvolves(s, e);
    if e.Ticked? {
      var now := Clock(e.at);
      var calm := if WatchdogExpired(s, now) then ForceZero(s.rumble) else s.rumble;
      ForcingStops(s.rumble, now);
      TimersKeepDrive(calm, now);
      SendingKeepsDrive(calm, now);
      SendingKeepsDrive(Timers(calm, now), now);
    } else if e.RumbleArrived? && s.link.negotiated && !Busy(s) {
      SourceDrives(s.rumble, e.feedback, Clock(e.at));
    } else if e.CdcConnected? || e.HidMounted? || e.CdcDisconnected? || e.DecodeFailed? || e.FrameArrived? {
      var now: uint32 := if e.CdcConnected? || e.HidMounted? || e.FrameArrived? then Clock(e.at) else 0;
      ForcingStops(s.rumble, now);
      ForcingStops(s.rumble.(quarantined := false), now);
      ForcingStops(ForceZero(s.rumble), now);
      ForcingStops(ForceZero(s.rumble.(quarantined := false)), now);
    }
  }

  lemma LeaseTellsTrueTime(s: Session, source: Event, at: nat, now: nat, lastTick: nat)
    requires Drives(source, s, now, lastTick) && now <= at && at - lastTick < CLOCK_PERIOD - SOURCE_LEASE_MS
    requires RumbleQueue.Sound(s.rumble) && Active(s.rumble.desired) && !LeaseExpired(s.rumble, Clock(at))
    ensures at - source.at < SOURCE_LEASE_MS
  {
    ElapsedIsExact(at, source.at);
  }

  lemma ActiveIsNegotiated(s: Session)
    requires Inv(s) && Active(s.rumble.desired)
    ensures s.link.negotiated
  {
  }

  lemma StepDrives(s: Session, e: Event, seen: seq<Event>, now: nat, lastTick: nat)
    requires Inv(s) && Driven(s, seen, now, lastTick) && lastTick <= now
    requires TimeAfter(now, e) >= now
    requires e.Ticked? ==> e.at - lastTick < CLOCK_PERIOD - SOURCE_LEASE_MS
    ensures Driven(Step(s, e), seen + [e], TimeAfter(now, e), LastTick(lastTick, e))
  {
    hide Step, LeaseExpired, RumbleQueue.Sound;
    var t := Step(s, e);
    if Active(t.rumble.desired) {
      OnlySourcesDrive(s, e);
      if Active(s.rumble.desired) {
        ActiveIsNegotiated(s);
      }
      if e.RumbleArrived? && t.rumble.desired == e.feedback && t.rumble.lastSourceMs == Clock(e.at) {
        assert (seen + [e])[|seen|] == e;
        assert Drives((seen + [e])[|seen|], t, TimeAfter(now, e), LastTick(lastTick, e));
      } else {
        var i :| 0 <= i < |seen| && Drives(seen[i], s, now, lastTick);
        assert (seen + [e])[i] == seen[i];
        if e.Ticked? {
          LeaseTellsTrueTime(s, seen[i], e.at, now, lastTick);
        }
        assert Drives((seen + [e])[i], t, TimeAfter(now, e), LastTick(lastTick, e));
      }
    }
  }

  lemma {:induction false} RunDrives(s: Session, events: seq<Event>, seen: seq<Event>, now: nat, lastTick: nat)
    requires Inv(s) && Driven(s, seen, now, lastTick) && lastTick <= now
    requires Timely(now, lastTick, events, SOURCE_LEASE_MS)
    ensures Driven(Run(s, events), seen + events, EndTime(now, events), EndTick(lastTick, events))
    decreases |events|
  {
    hide Step, Inv, Driven;
    if events == [] {
      assert seen + events == seen;
    } else {
      var e := events[0];
      StepDrives(s, e, seen, now, lastTick);
      StepKeepsInv(s, e);
      RunDrives(Step(s, e), events[1..], seen + [e], TimeAfter(now, e), LastTick(lastTick, e));
      assert (seen + [e]) + events[1..] == seen + events;
    }
  }

  /**
   * The rumble lease: right after a tick an active rumble is one the host driver itself asked for less
   * than 250 ms of true time before, however often the firmware refreshed it.
   */
  lemma RumbleNeedsLiveSource(world: World, start: nat, events: seq<Event>)
    requires events != [] && events[|events| - 1].Ticked?
    requires Timely(start, start, events, SOURCE_LEASE_MS)
    ensures var s, tick := Run(PowerOn(world), events), events[|events| - 1].at;
      Active(s.rumble.desired) ==>
        exists i | 0 <= i < |events| ::
          && events[i].RumbleArrived? && events[i].feedback == s.rumble.desired
          && events[i].at <= tick < events[i].at + SOURCE_LEASE_MS
  {
    hide Step, Inv;
    PowerOnIsSafe(world);
    RunDrives(PowerOn(world), events, [], start, start);
    EndsWithTick(start, start, events);
    var now := events[|events| - 1].at;
    assert [] + events == events;
    var s := Run(PowerOn(world), events);
    if Active(s.rumble.desired) {
      var i :| 0 <= i < |events| && Drives(events[i], s, now, now);
    }
  }
}
