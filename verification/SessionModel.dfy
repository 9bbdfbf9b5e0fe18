/**
 * The device session as a state machine over its events. The wire, the endpoint and the flash page are
 * part of the state, together with a log of everything that left the device.
 */
module SessionModel {
  import opened Bits
  import opened Protocol
  import opened Receipt
  import opened HidQueue
  import opened RumbleQueue

  const DATA_WATCHDOG_MS: uint32 := 100

  const UF2_TRANSITION_BUSY: uint16 := 1
  const INSTALL_RECEIPT_REJECTED: uint16 := 2
  const INSTALL_RECEIPT_READBACK_MISMATCH: uint16 := 3

  const DEVICE_INFO_FORMAT: byte := 1
  const CAPABILITIES: uint32 := 3
  const TARGET_TAG: byte := 1

  /** seeed-xiao-nrf52840 */
  const TARGET_ID: seq<byte> := [0x73, 0x65, 0x65, 0x65, 0x64, 0x2d, 0x78, 0x69, 0x61, 0x6f, 0x2d,
                                 0x6e, 0x72, 0x66, 0x35, 0x32, 0x38, 0x34, 0x30]

  /** Everything observable that leaves the device, and the events that delimit it. */
  datatype Out =
    | HidSent(report: Report)
    | CdcSent(sequence: uint16, messageType: byte, payload: seq<byte>)
    | ReceiptWrite(receipt: ReceiptData)
    | Mounted
    | Restarted

  /**
   * The world of the session. `replies` are the answers the CDC queue will give to the coming attempts
   * to queue a frame (no answer left means full); `supplies` is how each coming receipt write is powered.
   */
  datatype World = World(replies: seq<bool>, supplies: seq<Supply>, page: Page, wire: seq<byte>, log: seq<Out>)

  /** The CDC link: its handshake, its receive sequence and its faults. */
  datatype Link = Link(cdcConnected: bool, negotiated: bool, deviceInfoPending: bool, sequenceValid: bool,
                       faulted: bool, consecutiveErrors: byte, expectedSequence: uint16)

  /** The transition to the UF2 boot loader. */
  datatype Uf2 = Uf2(requested: bool, readyPending: bool, ready: bool, requestId: uint32)

  /** The receipt waiting to be recorded. */
  datatype ReceiptJob = ReceiptJob(requested: bool, requestId: uint32, receipt: ReceiptData)

  datatype Session = Session(link: Link, transmitSequence: uint16, watchdogArmed: bool, lastDataMs: uint32,
                             hid: Hid, rumble: Rumble, uf2: Uf2, job: ReceiptJob, world: World)

  const INITIAL_LINK := Link(false, false, false, false, false, 0, 0)
  const NO_UF2 := Uf2(false, false, false, 0)
  const NO_JOB := ReceiptJob(false, 0, ReceiptData(0, [0, 0, 0, 0, 0, 0, 0, 0, 0, 0, 0, 0, 0, 0, 0, 0], 0))

  function PowerOn(world: World): Session {
    Session(INITIAL_LINK, 0, false, 0, INITIAL_HID, INITIAL_RUMBLE, NO_UF2, NO_JOB, world)
  }

  function Logged(s: Session, out: Out): Session {
    s.(world := s.world.(log := s.world.log + [out]))
  }

  // ----- Sending -----

  datatype Sent = Sent(session: Session, ok: bool)

  function SendMessage(s: Session, messageType: byte, payload: seq<byte>): Sent
    requires |payload| <= MAX_PAYLOAD
  {
    var ok := s.world.replies != [] && s.world.replies[0];
    var rest := if s.world.replies == [] then [] else s.world.replies[1..];
    if ok then
      Sent(s.(transmitSequence := Next16(s.transmitSequence),
              world := s.world.(replies := rest,
                                wire := s.world.wire + EncodeFrame(s.transmitSequence, messageType, payload),
                                log := s.world.log + [CdcSent(s.transmitSequence, messageType, payload)])),
           true)
    else
      Sent(s.(world := s.world.(replies := rest)), false)
  }

  function ErrorPayload(code: uint16, requestId: uint32): (p: seq<byte>)
    ensures |p| == 6
  {
    [Low(code), High(code)] + ToBytes(requestId, 4)
  }

  function SendError(s: Session, code: uint16, requestId: uint32): Sent {
    SendMessage(s, ERROR, ErrorPayload(code, requestId))
  }

  /** The receipt as the protocol carries it, after the request id. */
  function ReceiptBytes(data: ReceiptData): (p: seq<byte>)
    ensures |p| == 25
  {
    ToBytes(data.installedAt, 8) + data.installId + [data.source]
  }

  function RecordedPayload(requestId: uint32, data: ReceiptData): (p: seq<byte>)
    ensures |p| == 29
  {
    ToBytes(requestId, 4) + ReceiptBytes(data)
  }

  function RumblePayload(f: Feedback): (p: seq<byte>)
    ensures |p| == 4
  {
    [Low(f.low), High(f.low), Low(f.high), High(f.high)]
  }

  function StatusCode(status: Status): byte {
    match status
    case Pending => 1
    case Recorded(_) => 2
    case Invalid => 3
  }

  function DeviceInfoPayload(status: Status): (p: seq<byte>)
    ensures |p| <= MAX_PAYLOAD
  {
    [DEVICE_INFO_FORMAT, Low(FIRMWARE_REVISION), High(FIRMWARE_REVISION)] + ToBytes(CAPABILITIES, 4)
      + [StatusCode(status)]
    + (if status.Recorded? then ReceiptBytes(status.receipt) else [])
    + [TARGET_TAG, |TARGET_ID|] + TARGET_ID
  }

  // ----- Safety -----

  function ForceNeutral(s: Session, safety: bool): Session {
    s.(watchdogArmed := false, hid := QueueReport(s.hid, NEUTRAL_REPORT, safety))
  }

  /** The neutral report and the zero rumble that every safety event queues. */
  function MakeSafe(s: Session): Session {
    s.(watchdogArmed := false, hid := QueueReport(s.hid, NEUTRAL_REPORT, true), rumble := ForceZero(s.rumble))
  }

  function BeginQuarantine(s: Session, now: uint32): Session {
    s.(rumble := RumbleQueue.Quarantine(s.rumble, now))
  }

  function ResetLink(l: Link): Link {
    l.(negotiated := false, deviceInfoPending := false, sequenceValid := false, consecutiveErrors := 0,
       faulted := false)
  }

  function ResetSession(s: Session, keepConnection: bool): Session {
    s.(link := ResetLink(s.link),
       transmitSequence := if keepConnection then s.transmitSequence else 0,
       watchdogArmed := false,
       hid := QueueReport(s.hid.(deferred := false), NEUTRAL_REPORT, true),
       rumble := ForceZero(s.rumble.(quarantined := false)),
       uf2 := NO_UF2,
       job := NO_JOB)
  }

  // ----- Events -----

  function OnCdcConnected(s: Session, now: uint32): Session {
    BeginQuarantine(ResetSession(s.(link := s.link.(cdcConnected := true), lastDataMs := now), true), now)
  }

  function OnCdcDisconnected(s: Session): Session {
    ResetSession(s.(link := s.link.(cdcConnected := false)), false)
  }

  function OnHidMounted(s: Session, now: uint32): Session {
    s.(watchdogArmed := false,
       hid := QueueReport(s.hid.(lastValid := false), NEUTRAL_REPORT, true),
       rumble := RumbleQueue.Quarantine(s.rumble, now),
       world := s.world.(log := s.world.log + [Mounted]))
  }

  function AnswerHello(s: Session, now: uint32): Session {
    var sent := SendMessage(s, HELLO_RESPONSE, [PROTOCOL_VERSION]);
    var answered := sent.session.(link := s.link.(negotiated := sent.ok, deviceInfoPending := sent.ok));
    if sent.ok then BeginQuarantine(answered, now) else answered
  }

  function HelloLink(l: Link, frame: Frame): Link {
    l.(negotiated := false, sequenceValid := true, expectedSequence := Next16(frame.sequence))
  }

  function OnHello(s: Session, frame: Frame, now: uint32): Session
    requires Accepted(frame) && frame.messageType == HELLO
  {
    var quiet := MakeSafe(s).(link := HelloLink(s.link, frame));
    if frame.payload[0] <= PROTOCOL_VERSION <= frame.payload[1]
    then AnswerHello(quiet, now)
    else quiet.(link := quiet.link.(deviceInfoPending := false))
  }

  predicate SequenceGap(s: Session, frame: Frame) {
    s.link.sequenceValid && frame.sequence != s.link.expectedSequence
  }

  function CheckSequence(s: Session, frame: Frame): Session {
    var link := s.link.(sequenceValid := true, expectedSequence := Next16(frame.sequence));
    if SequenceGap(s, frame) then MakeSafe(s).(link := link) else s.(link := link)
  }

  function ReportOf(frame: Frame): Report
    requires Accepted(frame) && frame.messageType == GAMEPAD_STATE
  {
    var p := frame.payload;
    Report(U16(p[0], p[1]), p[4], U16(p[6], p[7]), U16(p[8], p[9]), U16(p[10], p[11]), U16(p[12], p[13]),
           U16(p[14], p[15]), U16(p[16], p[17]))
  }

  function ApplyGamepad(s: Session, report: Report, now: uint32): Session {
    s.(lastDataMs := now, watchdogArmed := report != NEUTRAL_REPORT, hid := QueueReport(s.hid, report, false))
  }

  predicate Busy(s: Session) {
    s.uf2.requested || s.job.requested
  }

  function RequestIdOf(frame: Frame): uint32
    requires |frame.payload| >= 4
  {
    EightBytes();
    FromBytesRoundTrip(frame.payload[0..4]);
    FromBytes(frame.payload[0..4])
  }

  function BeginUf2(s: Session, frame: Frame): Session
    requires Accepted(frame) && frame.messageType == ENTER_UF2_BOOTLOADER
  {
    var id := RequestIdOf(frame);
    if s.job.requested then SendError(s, UF2_TRANSITION_BUSY, id).session
    else if s.uf2.requested then
      if id == s.uf2.requestId then (if s.uf2.ready then s.(uf2 := s.uf2.(readyPending := true)) else s)
      else SendError(s, UF2_TRANSITION_BUSY, id).session
    else MakeSafe(s).(uf2 := s.uf2.(requested := true, requestId := id))
  }

  function ReceiptOf(frame: Frame): ReceiptData
    requires Accepted(frame) && frame.messageType == RECORD_INSTALL_RECEIPT
  {
    EightBytes();
    FromBytesRoundTrip(frame.payload[4..12]);
    ReceiptData(FromBytes(frame.payload[4..12]), frame.payload[12..28], frame.payload[28])
  }

  function RecordInstallReceipt(s: Session, frame: Frame): Session
    requires Accepted(frame) && frame.messageType == RECORD_INSTALL_RECEIPT
  {
    var id, requested, status := RequestIdOf(frame), ReceiptOf(frame), ReadReceipt(s.world.page);
    if status.Recorded? then
      if status.receipt == requested
      then SendMessage(s, INSTALL_RECEIPT_RECORDED, RecordedPayload(id, status.receipt)).session
      else SendError(s, INSTALL_RECEIPT_REJECTED, id).session
    else if s.job.requested then
      if id != s.job.requestId || requested != s.job.receipt
      then SendError(s, INSTALL_RECEIPT_REJECTED, id).session
      else s
    else
      MakeSafe(s).(job := ReceiptJob(true, id, requested))
  }

  function Dispatch(s: Session, frame: Frame, now: uint32): Session
    requires Accepted(frame)
  {
    if frame.messageType == GAMEPAD_STATE then
      if Busy(s) then s else ApplyGamepad(s, ReportOf(frame), now)
    else if frame.messageType == NEUTRAL then
      if Busy(s) then s else ForceNeutral(s.(lastDataMs := now), false)
    else if frame.messageType == PING then
      SendMessage(s, PONG, frame.payload[0..4]).session
    else if frame.messageType == ENTER_UF2_BOOTLOADER then
      BeginUf2(s, frame)
    else if frame.messageType == RECORD_INSTALL_RECEIPT then
      if s.uf2.requested then SendError(s, UF2_TRANSITION_BUSY, RequestIdOf(frame)).session
      else RecordInstallReceipt(s, frame)
    else s
  }

  function OnFrame(s: Session, frame: Frame, now: uint32): Session
    requires Accepted(frame)
  {
    var heard := s.(link := s.link.(consecutiveErrors := 0, faulted := false));
    if frame.messageType == HELLO then OnHello(heard, frame, now)
    else if !heard.link.negotiated then heard
    else Dispatch(CheckSequence(heard, frame), frame, now)
  }

  function OnDecodeError(s: Session): Session {
    var errors := SaturatingNext(s.link.consecutiveErrors);
    if errors >= 3
    then MakeSafe(s).(link := s.link.(consecutiveErrors := errors, faulted := true, negotiated := false,
                                      sequenceValid := false))
    else s.(link := s.link.(consecutiveErrors := errors))
  }

  function OnXinputRumble(s: Session, f: Feedback, now: uint32): Session {
    if !s.link.negotiated || Busy(s) then s else s.(rumble := FromSource(s.rumble, f, now))
  }

  function OnHidAccepted(s: Session): Session {
    if !s.hid.pending then s
    else Logged(s, HidSent(s.hid.pendingReport)).(hid := MarkSent(s.hid))
  }

  // ----- The tick -----

  predicate WatchdogExpired(s: Session, now: uint32) {
    !s.uf2.requested && s.watchdogArmed && Elapsed(now, s.lastDataMs) >= DATA_WATCHDOG_MS
  }

  function ServiceWatchdog(s: Session, now: uint32): Session {
    if WatchdogExpired(s, now) then MakeSafe(s).(link := s.link.(faulted := true)) else s
  }

  function ServiceDeviceInfo(s: Session): Session {
    if !s.link.negotiated || !s.link.deviceInfoPending then s
    else
      var sent := SendMessage(s, DEVICE_INFO, DeviceInfoPayload(ReadReceipt(s.world.page)));
      if sent.ok then sent.session.(link := s.link.(deviceInfoPending := false)) else sent.session
  }

  function ServiceRumble(s: Session, now: uint32): Session {
    if !s.link.negotiated then s
    else
      var t := s.(rumble := Timers(s.rumble, now));
      if !t.rumble.pending then t
      else
        var sent := SendMessage(t, RUMBLE, RumblePayload(t.rumble.pendingFeedback));
        if sent.ok then sent.session.(rumble := Transmitted(t.rumble, now)) else sent.session
  }

  function SendReceiptError(s: Session, code: uint16): Session {
    var sent := SendError(s, code, s.job.requestId);
    if sent.ok then sent.session.(job := s.job.(requested := false)) else sent.session
  }

  datatype Recording = Recording(session: Session, ok: bool)

  /** The sink records the receipt on its flash page. */
  function RecordOnPage(s: Session): Recording {
    var w := s.world;
    var supply := if w.supplies == [] then Steady else w.supplies[0];
    var written := WriteReceipt(w.page, s.job.receipt, supply);
    Recording(s.(world := w.(page := written.page,
                             supplies := if w.supplies == [] then [] else w.supplies[1..],
                             log := w.log + [ReceiptWrite(s.job.receipt)])),
              written.ok)
  }

  function AcknowledgeReceipt(s: Session): Session {
    var status := ReadReceipt(s.world.page);
    if status != Recorded(s.job.receipt) then SendReceiptError(s, INSTALL_RECEIPT_READBACK_MISMATCH)
    else
      var sent := SendMessage(s, INSTALL_RECEIPT_RECORDED, RecordedPayload(s.job.requestId, status.receipt));
      if sent.ok then sent.session.(job := s.job.(requested := false)) else sent.session
  }

  function ServiceInstallReceipt(s: Session): Session {
    if !s.job.requested || s.hid.pending || s.rumble.pending then s
    else
      match ReadReceipt(s.world.page)
      case Invalid => SendReceiptError(s, INSTALL_RECEIPT_REJECTED)
      case Recorded(_) => AcknowledgeReceipt(s)
      case Pending =>
        var recording := RecordOnPage(s);
        if recording.ok then AcknowledgeReceipt(recording.session)
        else SendReceiptError(recording.session, INSTALL_RECEIPT_REJECTED)
  }

  function ServiceUf2(s: Session): Session {
    if !s.uf2.requested || s.hid.pending || s.rumble.pending || (s.uf2.ready && !s.uf2.readyPending) then s
    else
      var sent := SendMessage(s, UF2_BOOTLOADER_READY, ToBytes(s.uf2.requestId, 4));
      if sent.ok then sent.session.(uf2 := s.uf2.(ready := true, readyPending := false)) else sent.session
  }

  function Tick(s: Session, now: uint32): Session {
    ServiceUf2(ServiceInstallReceipt(ServiceRumble(ServiceDeviceInfo(ServiceWatchdog(s, now)), now)))
  }

  // ----- Runs -----

  type CheckedFrame = f: Frame | Accepted(f) witness Frame(PROTOCOL_VERSION, NEUTRAL, 0, [])

  /** What happens to a device; `at` is true time in milliseconds, of which the firmware sees 32 bits. */
  datatype Event =
    | CdcConnected(at: nat)
    | CdcDisconnected
    | HidMounted(at: nat)
    | FrameArrived(frame: CheckedFrame, at: nat)
    | DecodeFailed
    | RumbleArrived(feedback: Feedback, at: nat)
    | Ticked(at: nat)
    | HidAccepted
    | PowerCycled

  function Clock(at: nat): uint32 {
    at % 0x1_0000_0000
  }

  function Step(s: Session, e: Event): Session {
    match e
    case CdcConnected(at) => OnCdcConnected(s, Clock(at))
    case CdcDisconnected => OnCdcDisconnected(s)
    case HidMounted(at) => OnHidMounted(s, Clock(at))
    case FrameArrived(frame, at) => OnFrame(s, frame, Clock(at))
    case DecodeFailed => OnDecodeError(s)
    case RumbleArrived(feedback, at) => OnXinputRumble(s, feedback, Clock(at))
    case Ticked(at) => Tick(s, Clock(at))
    case HidAccepted => OnHidAccepted(s)
    case PowerCycled => PowerOn(Logged(s, Restarted).world)
  }

  function Run(s: Session, events: seq<Event>): Session
    decreases |events|
  {
    if events == [] then s else Run(Step(s, events[0]), events[1..])
  }
}
