/** Frames of the bridge protocol: their layout, their checks and the encoder. */
module Protocol {
  import opened Bits
  import opened Crc

  const MAGIC0: byte := 0x53
  const MAGIC1: byte := 0x43
  const PROTOCOL_VERSION: byte := 1
  const MAX_PAYLOAD: nat := 256
  const HEADER: nat := 8
  const CHECKSUM: nat := 2
  const MAX_FRAME: nat := HEADER + MAX_PAYLOAD + CHECKSUM

  const HELLO: byte := 1
  const HELLO_RESPONSE: byte := 2
  const GAMEPAD_STATE: byte := 3
  const NEUTRAL: byte := 4
  const PING: byte := 5
  const PONG: byte := 6
  const DEVICE_INFO: byte := 7
  const RUMBLE: byte := 8
  const ENTER_UF2_BOOTLOADER: byte := 9
  const UF2_BOOTLOADER_READY: byte := 10
  const RECORD_INSTALL_RECEIPT: byte := 11
  const INSTALL_RECEIPT_RECORDED: byte := 12
  const ERROR: byte := 255

  datatype DecodeError =
    | PayloadTooLarge
    | ChecksumMismatch
    | UnsupportedVersion
    | InvalidPayloadLength
    | InvalidHat
    | ReservedAxisValue
    | BufferOverflow

  datatype Frame = Frame(version: byte, messageType: byte, sequence: uint16, payload: seq<byte>)

  /** What the decoder hands to its callbacks. */
  datatype Signal = Decoded(frame: Frame) | Failed(error: DecodeError)

  /** The payload length a known message type fixes, if it fixes one. */
  function ExactLength(messageType: byte): int {
    if messageType == HELLO then 2
    else if messageType == HELLO_RESPONSE then 1
    else if messageType == GAMEPAD_STATE then 18
    else if messageType == NEUTRAL then 0
    else if messageType == PING || messageType == PONG then 4
    else if messageType == RUMBLE then 4
    else if messageType == ENTER_UF2_BOOTLOADER || messageType == UF2_BOOTLOADER_READY then 4
    else if messageType == RECORD_INSTALL_RECEIPT || messageType == INSTALL_RECEIPT_RECORDED then 29
    else -1
  }

  /** -32768, the axis value the protocol reserves, is the little-endian pair 00 80. */
  predicate ReservedAxis(payload: seq<byte>, offset: nat)
    requires offset + 2 <= |payload|
  {
    payload[offset] == 0 && payload[offset + 1] == 0x80
  }

  function Judge(frame: Frame): Signal {
    if ExactLength(frame.messageType) >= 0 && |frame.payload| != ExactLength(frame.messageType) then
      Failed(InvalidPayloadLength)
    else if frame.messageType == ERROR && |frame.payload| < 2 then
      Failed(InvalidPayloadLength)
    else if frame.messageType == GAMEPAD_STATE && frame.payload[4] > 8 then
      Failed(InvalidHat)
    else if frame.messageType == GAMEPAD_STATE
      && exists k | 0 <= k < 4 :: ReservedAxis(frame.payload, 6 + 2 * k) then
      Failed(ReservedAxisValue)
    else
      Decoded(frame)
  }

  /** A frame the session can be handed: everything the decoder checks has been checked. */
  predicate Accepted(frame: Frame) {
    frame.version == PROTOCOL_VERSION && |frame.payload| <= MAX_PAYLOAD && Judge(frame).Decoded?
  }

  lemma AcceptedLength(frame: Frame)
    requires Accepted(frame)
    ensures ExactLength(frame.messageType) >= 0 ==> |frame.payload| == ExactLength(frame.messageType)
  {
  }

  /**
   * The protocol document gives an error frame exactly six bytes of payload; the decoder asks only for the
   * two of the error code.
   */
  lemma ErrorFrameAccepted(sequence: uint16, payload: seq<byte>)
    ensures Accepted(Frame(PROTOCOL_VERSION, ERROR, sequence, payload)) <==> 2 <= |payload| <= MAX_PAYLOAD
  {
  }

  /** The shortest error frame the decoder takes. */
  lemma ShortErrorFrameAccepted(sequence: uint16)
    ensures var payload: seq<byte> := [1, 0];
      |payload| != 6 && Accepted(Frame(PROTOCOL_VERSION, ERROR, sequence, payload))
  {
  }

  // ----- Encoding -----

  /** Header and payload of a frame of any version: the bytes its checksum covers. */
  function CoveredWith(version: byte, sequence: uint16, messageType: byte, payload: seq<byte>): seq<byte>
    requires |payload| <= MAX_PAYLOAD
  {
    [MAGIC0, MAGIC1, version, messageType, Low(|payload|), High(|payload|), Low(sequence), High(sequence)] + payload
  }

  function Covered(sequence: uint16, messageType: byte, payload: seq<byte>): seq<byte>
    requires |payload| <= MAX_PAYLOAD
  {
    CoveredWith(PROTOCOL_VERSION, sequence, messageType, payload)
  }

  /** The bytes followed by the checksum that belongs to them, its low byte first. */
  function Sealed(covered: seq<byte>): seq<byte> {
    covered + [Low(Crc16(covered)), High(Crc16(covered))]
  }

  function EncodeFrame(sequence: uint16, messageType: byte, payload: seq<byte>): (bytes: seq<byte>)
    requires |payload| <= MAX_PAYLOAD
    ensures |bytes| == HEADER + |payload| + CHECKSUM
  {
    Sealed(Covered(sequence, messageType, payload))
  }

  lemma CoveredBytes(out: seq<byte>, sequence: uint16, messageType: byte, body: seq<byte>)
    requires |body| <= MAX_PAYLOAD && HEADER + |body| <= |out|
    requires out[0] == MAGIC0 && out[1] == MAGIC1 && out[2] == PROTOCOL_VERSION && out[3] == messageType
    requires out[4] == Low(|body|) && out[5] == High(|body|) && out[6] == Low(sequence) && out[7] == High(sequence)
    requires forall k | 0 <= k < |body| :: out[HEADER + k] == body[k]
    ensures out[..HEADER + |body|] == Covered(sequence, messageType, body)
  {
    hide Low, High;
    assert out[HEADER..HEADER + |body|] == body;
    assert out[..HEADER + |body|] == out[..HEADER] + out[HEADER..HEADER + |body|];
  }

  lemma SameTail(a: seq<byte>, b: seq<byte>, from: nat)
    requires |a| == |b| && from <= |a|
    requires forall k | from <= k < |a| :: a[k] == b[k]
    ensures a[from..] == b[from..]
  {
  }

  method PutCovered(sequence: uint16, messageType: byte, payload: array?<byte>, payloadLength: uint16,
                    output: array<byte>)
    requires payload != null ==> payloadLength <= payload.Length && payload != output
    requires payloadLength != 0 ==> payload != null
    requires payloadLength <= MAX_PAYLOAD && HEADER + payloadLength <= output.Length
    modifies output
    ensures output[..HEADER + payloadLength]
         == Covered(sequence, messageType, if payload == null then [] else payload[..payloadLength])
    ensures output[HEADER + payloadLength..] == old(output[HEADER + payloadLength..])
  {
    hide Low, High, Covered;
    ghost var before := output[..];
    output[0] := MAGIC0;
    output[1] := MAGIC1;
    output[2] := PROTOCOL_VERSION;
    output[3] := messageType;
    output[4] := Low(payloadLength);
    output[5] := High(payloadLength);
    output[6] := Low(sequence);
    output[7] := High(sequence);
    assert forall k | HEADER <= k < output.Length :: output[k] == before[k];
    if payloadLength != 0 {
      forall i | 0 <= i < payloadLength {
        output[HEADER + i] := payload[i];
      }
    }
    ghost var body := if payload == null then [] else payload[..payloadLength];
    CoveredBytes(output[..], sequence, messageType, body);
    SameTail(output[..], before, HEADER + payloadLength);
  }

  /** The encoder of the firmware: 0, and nothing written, when the frame cannot be built. */
  method EncodeFrameInto(sequence: uint16, messageType: byte, payload: array?<byte>, payloadLength: uint16,
                         output: array<byte>, capacity: nat)
    returns (length: nat)
    requires payload != null ==> payloadLength <= payload.Length && payload != output
    requires capacity <= output.Length
    modifies output
    ensures length == 0 <==>
      payloadLength > MAX_PAYLOAD || capacity < HEADER + payloadLength + CHECKSUM
      || (payloadLength != 0 && payload == null)
    ensures length == 0 ==> output[..] == old(output[..])
    ensures length != 0 ==>
      && length == HEADER + payloadLength + CHECKSUM
      && output[..length]
         == EncodeFrame(sequence, messageType, if payload == null then [] else payload[..payloadLength])
      && output[length..] == old(output[length..])
  {
    hide Crc16, Covered, Low, High;
    ghost var before := output[..];
    var frameLength := HEADER + payloadLength + CHECKSUM;
    if payloadLength > MAX_PAYLOAD || capacity < frameLength || (payloadLength != 0 && payload == null) {
      return 0;
    }
    PutCovered(sequence, messageType, payload, payloadLength, output);
    var end := HEADER + payloadLength;
    ghost var covered := output[..end];
    assert forall k | end <= k < output.Length :: output[k] == before[k] by {
      assert forall k | end <= k < output.Length :: output[k] == output[end..][k - end];
    }
    var crc := Crc16CcittFalse(output, end);
    output[end] := Low(crc);
    output[end + 1] := High(crc);
    assert output[..end] == covered;
    assert output[..frameLength] == output[..end] + [output[end], output[end + 1]];
    SameTail(output[..], before, frameLength);
    length := frameLength;
  }
}
