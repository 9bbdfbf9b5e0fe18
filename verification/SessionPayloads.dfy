/** The payloads of the session against the layouts the protocol document gives them, and input end to end. */
module SessionPayloads {
  import opened Bits
  import opened Options
  import opened Protocol
  import opened Parser
  import opened Receipt
  import opened HidQueue
  import opened RumbleQueue
  import opened SessionModel
  import opened SessionSafety
  import opened SessionLog
  import opened SessionHid

  /** A report the protocol can carry: a hat direction or centre, and no axis at its reserved value. */
  predicate Playable(r: Report) {
    r.hat <= 8 && 0x8000 !in {r.leftX, r.leftY, r.rightX, r.rightY}
  }

  /** The gamepad payload as the host lays it out; `reserved` are button bits 16 to 31. */
  function GamepadPayload(r: Report, reserved: uint16, flags: byte): (p: seq<byte>)
    ensures |p| == 18
  {
    [Low(r.buttons), High(r.buttons), Low(reserved), High(reserved), r.hat, flags,
     Low(r.leftX), High(r.leftX), Low(r.leftY), High(r.leftY),
     Low(r.rightX), High(r.rightX), Low(r.rightY), High(r.rightY),
     Low(r.leftTrigger), High(r.leftTrigger), Low(r.rightTrigger), High(r.rightTrigger)]
  }

  function GamepadFrame(sequence: uint16, r: Report, reserved: uint16, flags: byte): Frame {
    Frame(PROTOCOL_VERSION, GAMEPAD_STATE, sequence, GamepadPayload(r, reserved, flags))
  }

  /** An axis has the reserved value exactly when its two bytes are the reserved pair. */
  lemma AxisBytes(p: seq<byte>, offset: nat, axis: uint16)
    requires offset + 2 <= |p| && p[offset] == Low(axis) && p[offset + 1] == High(axis)
    ensures ReservedAxis(p, offset) <==> axis == 0x8000
  {
  }

  lemma PayloadIsJudged(sequence: uint16, r: Report, reserved: uint16, flags: byte)
    ensures Accepted(GamepadFrame(sequence, r, reserved, flags)) <==> Playable(r)
  {
    hide Low, High, ReservedAxis;
    var p := GamepadPayload(r, reserved, flags);
    AxisBytes(p, 6 + 2 * 0, r.leftX);
    AxisBytes(p, 6 + 2 * 1, r.leftY);
    AxisBytes(p, 6 + 2 * 2, r.rightX);
    AxisBytes(p, 6 + 2 * 3, r.rightY);
  }

  /** A laid-out report passes the checks exactly if it is playable, and is then read back as it was. */
  lemma GamepadRoundTrip(sequence: uint16, r: Report, reserved: uint16, flags: byte)
    ensures var frame := GamepadFrame(sequence, r, reserved, flags);
      && (Accepted(frame) <==> Playable(r))
      && (Accepted(frame) ==> ReportOf(frame) == r)
  {
    hide Low, High, U16, Accepted, Playable;
    PayloadIsJudged(sequence, r, reserved, flags);
    forall x: uint16
      ensures U16(Low(x), High(x)) == x
    {
      U16RoundTrip(x, 0, 0);
    }
  }

  /** What is wrong with a gamepad payload is named: a hat beyond its range before a reserved axis. */
  lemma RejectionsAreNamed(sequence: uint16, r: Report, reserved: uint16, flags: byte)
    ensures var frame := GamepadFrame(sequence, r, reserved, flags);
      Judge(frame) ==
        if r.hat > 8 then Failed(InvalidHat)
        else if 0x8000 in {r.leftX, r.leftY, r.rightX, r.rightY} then Failed(ReservedAxisValue)
        else Decoded(frame)
  {
    hide Low, High, ReservedAxis;
    var p := GamepadPayload(r, reserved, flags);
    AxisBytes(p, 6 + 2 * 0, r.leftX);
    AxisBytes(p, 6 + 2 * 1, r.leftY);
    AxisBytes(p, 6 + 2 * 2, r.rightX);
    AxisBytes(p, 6 + 2 * 3, r.rightY);
  }

  /** The payload lengths of the protocol document, by message type. */
  const DOCUMENTED_LENGTHS: map<int, nat> := map[
    1 := 2, 2 := 1, 3 := 18, 4 := 0, 5 := 4, 6 := 4, 8 := 4, 9 := 4, 10 := 4, 11 := 29, 12 := 29]

  /** A frame is rejected for its length exactly as documented, but for the error frame, where two bytes do. */
  lemma LengthsAreDocumented(sequence: uint16, messageType: byte, payload: seq<byte>)
    ensures Judge(Frame(PROTOCOL_VERSION, messageType, sequence, payload)) == Failed(InvalidPayloadLength)
       <==> || (messageType in DOCUMENTED_LENGTHS && |payload| != DOCUMENTED_LENGTHS[messageType])
            || (messageType == 255 && |payload| < 2)
  {
    hide ReservedAxis;
  }

  /** Whatever gamepad frame the session is handed holds a playable report. */
  lemma AcceptedIsPlayable(frame: CheckedFrame)
    requires frame.messageType == GAMEPAD_STATE
    ensures Playable(ReportOf(frame))
  {
    AcceptedLength(frame);
    var p := frame.payload;
    assert forall k | 0 <= k < 4 :: !ReservedAxis(p, 6 + 2 * k);
    forall k | 0 <= k < 4
      ensures U16(p[6 + 2 * k], p[6 + 2 * k + 1]) != 0x8000
    {
      assert !ReservedAxis(p, 6 + 2 * k);
    }
    assert U16(p[6 + 2 * 0], p[6 + 2 * 0 + 1]) == U16(p[6], p[7]);
    assert U16(p[6 + 2 * 1], p[6 + 2 * 1 + 1]) == U16(p[8], p[9]);
    assert U16(p[6 + 2 * 2], p[6 + 2 * 2 + 1]) == U16(p[10], p[11]);
    assert U16(p[6 + 2 * 3], p[6 + 2 * 3 + 1]) == U16(p[12], p[13]);
  }

  /**
   * Input end to end: a playable report that the host encodes is what the decoder hands over, and once the
   * endpoint has accepted twice it holds just that report, whatever was pending or deferred before.
   */
  lemma InputReachesEndpoint(s: Session, sequence: uint16, r: Report, reserved: uint16, flags: byte, at: nat)
    requires Reachable(s) && s.link.negotiated && !Busy(s)
    requires Playable(r)
    ensures var frame := GamepadFrame(sequence, r, reserved, flags);
      && Parse(EncodeFrame(sequence, GAMEPAD_STATE, frame.payload)) == Parsed([Decoded(frame)], [])
      && Accepted(frame)
      && LastHid(Run(s, [FrameArrived(frame, at), HidAccepted, HidAccepted]).world.log) == Some(r)
  {
    hide Accepted, Judge, Head, Parse, EncodeFrame, GamepadPayload, Playable, ReportOf, Step, LastHid, Reachable,
         Target, SafetyEvent, Inv, LogInv;
    var frame := GamepadFrame(sequence, r, reserved, flags);
    GamepadRoundTrip(sequence, r, reserved, flags);
    JudgedAccepted(frame);
    DecodesAlone(sequence, GAMEPAD_STATE, frame.payload);
    var e := FrameArrived(frame, at);
    var t := Step(s, e);
    ReachableStates(s);
    TargetIsLatest(s, e);
    StepStaysReachable(s, e);
    TwoAcceptancesDrain(t);
    assert [e, HidAccepted, HidAccepted][1..] == [HidAccepted, HidAccepted];
    assert Run(s, [e, HidAccepted, HidAccepted]) == Run(t, [HidAccepted, HidAccepted]);
  }

  lemma JudgedAccepted(frame: Frame)
    requires Accepted(frame)
    ensures Judge(frame) == Decoded(frame)
  {
  }

  lemma DecodesAlone(sequence: uint16, messageType: byte, payload: seq<byte>)
    requires |payload| <= MAX_PAYLOAD
    ensures Parse(EncodeFrame(sequence, messageType, payload))
         == Parsed([Judge(Frame(PROTOCOL_VERSION, messageType, sequence, payload))], [])
  {
    hide Judge, EncodeFrame;
    var bytes := EncodeFrame(sequence, messageType, payload);
    ParseEncoded(sequence, messageType, payload, []);
    assert bytes + [] == bytes;
  }

  lemma StepStaysReachable(s: Session, e: Event)
    requires Reachable(s)
    ensures Reachable(Step(s, e))
  {
    hide Step;
    var world: World, events: seq<Event> :| world.log == [] && s == Run(PowerOn(world), events);
    RunAppend(PowerOn(world), events, e);
  }

  lemma {:induction false} RunAppend(s: Session, events: seq<Event>, e: Event)
    ensures Run(s, events + [e]) == Step(Run(s, events), e)
    decreases |events|
  {
    hide Step;
    if events == [] {
      assert [] + [e] == [e] && [e][1..] == [];
    } else {
      assert (events + [e])[1..] == events[1..] + [e];
      RunAppend(Step(s, events[0]), events[1..], e);
    }
  }

  lemma Segments<T>(a: seq<T>, b: seq<T>, c: seq<T>)
    ensures (a + b + c)[..|a|] == a && (a + b + c)[|a|..|a| + |b|] == b && (a + b + c)[|a| + |b|..] == c
  {
  }

  /** The documented offsets of the device information, target identity included. */
  lemma DeviceInfoLayout(status: Status)
    ensures var p := DeviceInfoPayload(status);
      var body := if status.Recorded? then 33 else 8;
      && |p| == body + 2 + |TARGET_ID|
      && p[0] == 1 && U16(p[1], p[2]) == FIRMWARE_REVISION && FromBytes(p[3..7]) == CAPABILITIES
      && p[7] == (if status.Pending? then 1 else if status.Recorded? then 2 else 3)
      && (status.Recorded? ==>
          FromBytes(p[8..16]) == status.receipt.installedAt && p[16..32] == status.receipt.installId
          && p[32] == status.receipt.source)
      && p[body] == TARGET_TAG && p[body + 1] == |TARGET_ID| && p[body + 2..] == TARGET_ID
  {
    hide ToBytes, FromBytes, Low, High, U16, ReceiptBytes;
    var p := DeviceInfoPayload(status);
    var head := [DEVICE_INFO_FORMAT, Low(FIRMWARE_REVISION), High(FIRMWARE_REVISION)] + ToBytes(CAPABILITIES, 4)
      + [StatusCode(status)];
    var receipt := if status.Recorded? then ReceiptBytes(status.receipt) else [];
    var target := [TARGET_TAG, |TARGET_ID|] + TARGET_ID;
    assert p == head + receipt + target;
    Segments(head, receipt, target);
    EightBytes();
    U16RoundTrip(FIRMWARE_REVISION, 0, 0);
    BytesRoundTrip(CAPABILITIES, 4);
    assert p[3..7] == p[..8][3..7] == ToBytes(CAPABILITIES, 4);
    assert p[7] == p[..8][7] && p[0] == p[..8][0] && p[1] == p[..8][1] && p[2] == p[..8][2];
    if status.Recorded? {
      assert p[8..33] == receipt;
      ReceiptFields(status.receipt);
      SliceOfSlice(p, 8, 33, 0, 8);
      SliceOfSlice(p, 8, 33, 8, 24);
      assert p[32] == p[8..33][24];
    }
    TargetFields(p, |head| + |receipt|);
  }

  lemma ReceiptFields(data: ReceiptData)
    ensures var b := ReceiptBytes(data);
      FromBytes(b[0..8]) == data.installedAt && b[8..24] == data.installId && b[24] == data.source
  {
    hide ToBytes, FromBytes;
    EightBytes();
    BytesRoundTrip(data.installedAt, 8);
    assert ReceiptBytes(data)[0..8] == ToBytes(data.installedAt, 8);
  }

  lemma TargetFields(p: seq<byte>, at: nat)
    requires at <= |p| && p[at..] == [TARGET_TAG, |TARGET_ID|] + TARGET_ID
    ensures |p| == at + 2 + |TARGET_ID|
    ensures p[at] == TARGET_TAG && p[at + 1] == |TARGET_ID| && p[at + 2..] == TARGET_ID
  {
    var t := p[at..];
    assert |t| == |p| - at;
    assert t[0] == p[at] && t[1] == p[at + 1];
    assert t[2..] == p[at + 2..];
  }

  /** What a host reads back from a rumble, an error and a receipt payload is what was put in. */
  lemma AnswersReadBack(f: Feedback, code: uint16, requestId: uint32, data: ReceiptData)
    ensures var p := RumblePayload(f); Feedback(U16(p[0], p[1]), U16(p[2], p[3])) == f
    ensures var p := ErrorPayload(code, requestId); U16(p[0], p[1]) == code && FromBytes(p[2..6]) == requestId
    ensures var p := RecordedPayload(requestId, data);
      && FromBytes(p[0..4]) == requestId && FromBytes(p[4..12]) == data.installedAt
      && p[12..28] == data.installId && p[28] == data.source
  {
    hide ToBytes, FromBytes;
    EightBytes();
    BytesRoundTrip(requestId, 4);
    BytesRoundTrip(data.installedAt, 8);
    U16RoundTrip(f.low, 0, 0);
    U16RoundTrip(f.high, 0, 0);
    U16RoundTrip(code, 0, 0);
    assert ErrorPayload(code, requestId)[2..6] == ToBytes(requestId, 4);
    var p := RecordedPayload(requestId, data);
    assert p[0..4] == ToBytes(requestId, 4) && p[4..12] == ToBytes(data.installedAt, 8) && p[12..28] == data.installId;
  }
}
