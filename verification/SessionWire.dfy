/** The byte stream to the host: what was sent is what a decoder reads back. */
module SessionWire {
  import opened Bits
  import opened Protocol
  import opened Parser
  import opened Receipt
  import opened HidQueue
  import opened RumbleQueue
  import opened SessionModel

  /** The frames the sink accepted, in order. */
  function Frames(log: seq<Out>): seq<Frame> {
    if log == [] then []
    else
      var last := log[|log| - 1];
      Frames(log[..|log| - 1])
      + if last.CdcSent? then [Frame(PROTOCOL_VERSION, last.messageType, last.sequence, last.payload)] else []
  }

  lemma FramesAppend(log: seq<Out>, out: Out)
    ensures Frames(log + [out])
         == Frames(log)
            + if out.CdcSent? then [Frame(PROTOCOL_VERSION, out.messageType, out.sequence, out.payload)] else []
  {
    assert (log + [out])[..|log|] == log;
  }

  predicate AllAccepted(frames: seq<Frame>) {
    forall i | 0 <= i < |frames| :: Accepted(frames[i])
  }

  function Encoded(frames: seq<Frame>): seq<byte>
    requires AllAccepted(frames)
  {
    if frames == [] then []
    else EncodeFrame(frames[0].sequence, frames[0].messageType, frames[0].payload) + Encoded(frames[1..])
  }

  function Signals(frames: seq<Frame>): seq<Signal> {
    if frames == [] then [] else [Decoded(frames[0])] + Signals(frames[1..])
  }

  /** Consecutive sequence numbers, wrapping at 2^16. */
  predicate Numbered(frames: seq<Frame>, first: nat) {
    forall i | 0 <= i < |frames| :: frames[i].sequence == (first + i) % 0x1_0000
  }

  /** Between two states the wire grew by exactly the encodings of the frames that were logged. */
  predicate Streamed(s: Session, t: Session) {
    var a, b := Frames(s.world.log), Frames(t.world.log);
    && a <= b
    && var sent := b[|a|..];
       && AllAccepted(sent)
       && t.world.wire == s.world.wire + Encoded(sent)
       && Numbered(sent, s.transmitSequence)
       && t.transmitSequence == (s.transmitSequence + |sent|) % 0x1_0000
  }

  lemma {:induction false} EncodedConcat(a: seq<Frame>, b: seq<Frame>)
    requires AllAccepted(a) && AllAccepted(b)
    ensures AllAccepted(a + b) && Encoded(a + b) == Encoded(a) + Encoded(b)
  {
    hide Accepted, EncodeFrame;
    if a == [] {
      assert a + b == b;
    } else {
      EncodedConcat(a[1..], b);
      assert (a + b)[1..] == a[1..] + b;
    }
  }

  lemma StreamsCompose(s: Session, t: Session, u: Session)
    requires Streamed(s, t) && Streamed(t, u)
    ensures Streamed(s, u)
  {
    hide Frames, Encoded, Accepted;
    var a, b, c := Frames(s.world.log), Frames(t.world.log), Frames(u.world.log);
    var first, second := b[|a|..], c[|b|..];
    EncodedConcat(first, second);
    assert c[|a|..] == first + second;
    assert s.world.wire + (Encoded(first) + Encoded(second)) == (s.world.wire + Encoded(first)) + Encoded(second);
    NumberedConcat(first, second, s.transmitSequence);
  }

  lemma NumberedConcat(a: seq<Frame>, b: seq<Frame>, first: nat)
    requires Numbered(a, first) && Numbered(b, (first + |a|) % 0x1_0000)
    ensures Numbered(a + b, first)
    ensures ((first + |a|) % 0x1_0000 + |b|) % 0x1_0000 == (first + |a + b|) % 0x1_0000
  {
    forall i | 0 <= i < |a + b|
      ensures (a + b)[i].sequence == (first + i) % 0x1_0000
    {
      if i >= |a| {
        assert ((first + |a|) % 0x1_0000 + (i - |a|)) % 0x1_0000 == (first + i) % 0x1_0000;
      }
    }
  }

  /** The same wire, the same frames, the same next sequence number. */
  predicate SameStream(s: Session, t: Session) {
    && t.world.wire == s.world.wire
    && Frames(t.world.log) == Frames(s.world.log)
    && t.transmitSequence == s.transmitSequence
  }

  lemma SameIsStreamed(s: Session, t: Session)
    requires SameStream(s, t)
    ensures Streamed(s, t)
  {
    hide Frames;
    assert Frames(t.world.log)[|Frames(s.world.log)|..] == [];
    assert s.world.wire + [] == s.world.wire;
  }

  predicate Sendable(messageType: byte, payload: seq<byte>) {
    && |payload| <= MAX_PAYLOAD
    && messageType != GAMEPAD_STATE
    && (ExactLength(messageType) >= 0 ==> |payload| == ExactLength(messageType))
    && (messageType == ERROR ==> |payload| >= 2)
  }

  lemma SendStreams(s: Session, messageType: byte, payload: seq<byte>)
    requires Sendable(messageType, payload)
    ensures Streamed(s, SendMessage(s, messageType, payload).session)
  {
    hide EncodeFrame, Frames;
    var t := SendMessage(s, messageType, payload).session;
    FramesAppend(s.world.log, CdcSent(s.transmitSequence, messageType, payload));
    if SendMessage(s, messageType, payload).ok {
      var frame := Frame(PROTOCOL_VERSION, messageType, s.transmitSequence, payload);
      var sent := [frame];
      assert Frames(t.world.log)[|Frames(s.world.log)|..] == sent;
      assert Accepted(frame);
      assert Encoded(sent) == EncodeFrame(s.transmitSequence, messageType, payload) + Encoded(sent[1..])
        && sent[1..] == [];
    } else {
      SameIsStreamed(s, t);
    }
  }

  lemma StreamedBy(s: Session, a: Session, messageType: byte, payload: seq<byte>)
    requires SameStream(s, a) && Sendable(messageType, payload)
    ensures Streamed(s, SendMessage(a, messageType, payload).session)
  {
    hide SendMessage, Streamed, SameStream;
    SameIsStreamed(s, a);
    SendStreams(a, messageType, payload);
    StreamsCompose(s, a, SendMessage(a, messageType, payload).session);
  }

  lemma FrameStreams(s: Session, frame: CheckedFrame, now: uint32)
    ensures Streamed(s, OnFrame(s, frame, now))
  {
    hide SendMessage, ReportOf, RequestIdOf, ReceiptOf, ErrorPayload, RecordedPayload, ReadReceipt, Judge,
         QueueReport, ForceZero, RumbleQueue.Quarantine, Frames, Encoded, Numbered, AllAccepted;
    AcceptedLength(frame);
    var heard := s.(link := s.link.(consecutiveErrors := 0, faulted := false));
    if frame.messageType == HELLO {
      StreamedBy(s, MakeSafe(heard).(link := HelloLink(heard.link, frame)), HELLO_RESPONSE, [PROTOCOL_VERSION]);
      SameIsStreamed(s, MakeSafe(heard));
    } else if heard.link.negotiated {
      var checked := CheckSequence(heard, frame);
      SameIsStreamed(s, checked);
      if frame.messageType == PING {
        StreamedBy(s, checked, PONG, frame.payload[0..4]);
      } else if frame.messageType == ENTER_UF2_BOOTLOADER {
        StreamedBy(s, checked, ERROR, ErrorPayload(UF2_TRANSITION_BUSY, RequestIdOf(frame)));
      } else if frame.messageType == RECORD_INSTALL_RECEIPT {
        var id := RequestIdOf(frame);
        StreamedBy(s, checked, ERROR, ErrorPayload(UF2_TRANSITION_BUSY, id));
        StreamedBy(s, checked, ERROR, ErrorPayload(INSTALL_RECEIPT_REJECTED, id));
        StreamedBy(s, checked, INSTALL_RECEIPT_RECORDED, RecordedPayload(id, ReceiptOf(frame)));
      }
    } else {
      SameIsStreamed(s, heard);
    }
  }

  lemma InfoStreams(s: Session)
    ensures Streamed(s, ServiceDeviceInfo(s))
  {
    hide SendMessage, ReadReceipt, DeviceInfoPayload, Frames, Encoded;
    SameIsStreamed(s, s);
    SendStreams(s, DEVICE_INFO, DeviceInfoPayload(ReadReceipt(s.world.page)));
  }

  lemma RumbleStreams(s: Session, now: uint32)
    ensures Streamed(s, ServiceRumble(s, now))
  {
    hide SendMessage, Timers, Transmitted, RumblePayload, Frames, Encoded;
    var t := s.(rumble := Timers(s.rumble, now));
    SameIsStreamed(s, s);
    SameIsStreamed(s, t);
    StreamedBy(s, t, RUMBLE, RumblePayload(t.rumble.pendingFeedback));
  }

  lemma RecordStreams(s: Session)
    ensures SameStream(s, RecordOnPage(s).session)
  {
    hide WriteReceipt, Frames;
    FramesAppend(s.world.log, ReceiptWrite(s.job.receipt));
  }

  lemma AnswersStream(s: Session)
    ensures Streamed(s, AcknowledgeReceipt(s)) && Streamed(s, SendReceiptError(s, INSTALL_RECEIPT_REJECTED))
  {
    hide SendMessage, ReadReceipt, ErrorPayload, RecordedPayload, Frames, Encoded, Numbered, AllAccepted;
    SendStreams(s, ERROR, ErrorPayload(INSTALL_RECEIPT_REJECTED, s.job.requestId));
    SendStreams(s, ERROR, ErrorPayload(INSTALL_RECEIPT_READBACK_MISMATCH, s.job.requestId));
    SendStreams(s, INSTALL_RECEIPT_RECORDED, RecordedPayload(s.job.requestId, s.job.receipt));
  }

  lemma ReceiptServiceStreams(s: Session)
    ensures Streamed(s, ServiceInstallReceipt(s))
  {
    hide ReadReceipt, RecordOnPage, AcknowledgeReceipt, SendReceiptError, Streamed, SameStream;
    var r := RecordOnPage(s).session;
    SameHere(s);
    RecordStreams(s);
    SameIsStreamed(s, r);
    AnswersStream(s);
    AnswersStream(r);
    StreamsCompose(s, r, AcknowledgeReceipt(r));
    StreamsCompose(s, r, SendReceiptError(r, INSTALL_RECEIPT_REJECTED));
  }

  lemma SameHere(s: Session)
    ensures Streamed(s, s)
  {
    SameIsStreamed(s, s);
  }

  lemma Uf2Streams(s: Session)
    ensures Streamed(s, ServiceUf2(s))
  {
    hide SendMessage, ToBytes, Frames, Encoded;
    SameIsStreamed(s, s);
    SendStreams(s, UF2_BOOTLOADER_READY, ToBytes(s.uf2.requestId, 4));
  }

  lemma TickStreams(s: Session, now: uint32)
    ensures Streamed(s, Tick(s, now))
  {
    hide ServiceWatchdog, ServiceDeviceInfo, ServiceRumble, ServiceInstallReceipt, ServiceUf2, Streamed, SameStream;
    var a := ServiceWatchdog(s, now);
    WatchdogStreams(s, now);
    SameIsStreamed(s, a);
    var b := ServiceDeviceInfo(a);
    InfoStreams(a);
    StreamsCompose(s, a, b);
    var c := ServiceRumble(b, now);
    RumbleStreams(b, now);
    StreamsCompose(s, b, c);
    var d := ServiceInstallReceipt(c);
    ReceiptServiceStreams(c);
    StreamsCompose(s, c, d);
    Uf2Streams(d);
    StreamsCompose(s, d, ServiceUf2(d));
  }

  lemma WatchdogStreams(s: Session, now: uint32)
    ensures SameStream(s, ServiceWatchdog(s, now))
  {
  }

  /** The events that end a stream: the link goes down, or the device does. */
  predicate EndsStream(e: Event) {
    e.CdcDisconnected? || e.PowerCycled?
  }

  lemma StepStreams(s: Session, e: Event)
    requires !EndsStream(e)
    ensures Streamed(s, Step(s, e))
  {
    hide OnFrame, Tick, QueueReport, MarkSent, ForceZero, FromSource, RumbleQueue.Quarantine, Frames, Streamed;
    match e
    case CdcConnected(_) => SameIsStreamed(s, Step(s, e));
    case HidMounted(_) =>
      FramesAppend(s.world.log, Mounted);
      SameIsStreamed(s, Step(s, e));
    case FrameArrived(frame, at) => FrameStreams(s, frame, Clock(at));
    case DecodeFailed => SameIsStreamed(s, Step(s, e));
    case RumbleArrived(_, _) => SameIsStreamed(s, Step(s, e));
    case Ticked(at) => TickStreams(s, Clock(at));
    case HidAccepted =>
      FramesAppend(s.world.log, HidSent(s.hid.pendingReport));
      SameIsStreamed(s, Step(s, e));
    case _ =>
  }

  lemma {:induction false} RunStreams(s: Session, events: seq<Event>)
    requires forall e <- events :: !EndsStream(e)
    ensures Streamed(s, Run(s, events))
    decreases |events|
  {
    hide Step, Streamed;
    if events == [] {
      SameHere(s);
    } else {
      StepStreams(s, events[0]);
      RunStreams(Step(s, events[0]), events[1..]);
      StreamsCompose(s, Step(s, events[0]), Run(s, events));
    }
  }

  lemma {:induction false} EncodedIsParsed(frames: seq<Frame>)
    requires AllAccepted(frames)
    ensures Parse(Encoded(frames)) == Parsed(Signals(frames), [])
  {
    hide Head, EncodeFrame;
    if frames == [] {
      NothingToParse();
    } else {
      var f := frames[0];
      EncodedIsParsed(frames[1..]);
      assert Accepted(f);
      AcceptedIsDecoded(f);
      ParseEncoded(f.sequence, f.messageType, f.payload, Encoded(frames[1..]));
    }
  }

  lemma NothingToParse()
    ensures Parse([]) == Parsed([], [])
  {
  }

  lemma AcceptedIsDecoded(f: Frame)
    requires Accepted(f)
    ensures Judge(Frame(PROTOCOL_VERSION, f.messageType, f.sequence, f.payload)) == Decoded(f)
  {
  }

  /**
   * The round trip over a whole connection: however the session runs, the bytes the sink accepted decode,
   * from an empty decoder, to exactly the frames that were sent, in order, without an error and with
   * nothing left over; and their sequence numbers count on from the first without a gap.
   */
  lemma StreamRoundTrip(s: Session, events: seq<Event>)
    requires forall e <- events :: !EndsStream(e)
    ensures var t := Run(s, events);
      && s.world.wire <= t.world.wire
      && Frames(s.world.log) <= Frames(t.world.log)
      && var sent := Frames(t.world.log)[|Frames(s.world.log)|..];
         && Parse(t.world.wire[|s.world.wire|..]) == Parsed(Signals(sent), [])
         && Numbered(sent, s.transmitSequence)
  {
    hide Frames, Encoded, Parse, Signals, Numbered, AllAccepted, Run;
    RunStreams(s, events);
    var t := Run(s, events);
    var sent := Frames(t.world.log)[|Frames(s.world.log)|..];
    EncodedIsParsed(sent);
    assert t.world.wire[|s.world.wire|..] == Encoded(sent);
  }
}
