/** The incremental decoder of the firmware: one fixed buffer, one byte at a time. */
module Decoder {
  import opened Bits
  import opened Crc
  import opened Protocol
  import opened Parser

  class StreamDecoder {
    const buffer: array<byte>
    var buffered: nat
    /** What the frame and error callbacks have been given so far. */
    var emitted: seq<Signal>

    ghost predicate Valid()
      reads this
    {
      buffer.Length == MAX_FRAME && buffered <= MAX_FRAME
    }

    ghost function Held(): seq<byte>
      requires Valid()
      reads this, buffer
    {
      buffer[..buffered]
    }

    constructor ()
      ensures Valid() && fresh(buffer)
      ensures Held() == [] && emitted == []
    {
      buffer := new byte[MAX_FRAME];
      buffered := 0;
      emitted := [];
    }

    method Reset()
      requires Valid()
      modifies this`buffered
      ensures Valid() && Held() == []
    {
      buffered := 0;
    }

    /**
     * However the buffer stood, the decoder now has signalled and holds what the whole-stream parser
     * signals and leaves over on the held bytes followed by the new ones. Only a buffer already full
     * loses a byte to an overflow, and no call leaves it full.
     */
    method Push(data: seq<byte>)
      requires Valid()
      modifies this`buffered, this`emitted, buffer
      ensures Valid()
      ensures data == [] ==> Held() == old(Held()) && emitted == old(emitted)
      ensures data != [] ==> buffered < MAX_FRAME
      ensures data != [] && old(buffered) < MAX_FRAME ==>
        && emitted == old(emitted) + Parse(old(Held()) + data).signals
        && Held() == Parse(old(Held()) + data).residue
      ensures data != [] && old(buffered) == MAX_FRAME ==>
        && emitted == old(emitted) + [Failed(BufferOverflow)] + Parse(old(Held())[1..] + data).signals
        && Held() == Parse(old(Held())[1..] + data).residue
    {
      hide Parse;
      ghost var full := buffered == MAX_FRAME;
      ghost var start := if full then Held()[1..] else Held();
      ghost var before := if full then emitted + [Failed(BufferOverflow)] else emitted;
      for i := 0 to |data|
        invariant Valid()
        invariant i == 0 ==> Held() == old(Held()) && emitted == old(emitted)
        invariant i > 0 ==>
          && buffered < MAX_FRAME
          && emitted == before + Parse(start + data[..i]).signals
          && Held() == Parse(start + data[..i]).residue
      {
        ghost var held, signalled := Held(), emitted;
        PushByte(data[i]);
        if i > 0 || !full {
          ParseNextByte(start, data, i, before, signalled, held);
        } else {
          ParseNextByte(start, data, i, before, before, start);
        }
      }
      assert data[..|data|] == data;
    }

    /** One byte of a push: a full buffer loses its first byte to it, and then all is decided that can be. */
    method PushByte(value: byte)
      requires Valid()
      modifies this`buffered, this`emitted, buffer
      ensures Valid() && buffered < MAX_FRAME
      ensures old(buffered) < MAX_FRAME ==>
        && emitted == old(emitted) + Parse(old(Held()) + [value]).signals
        && Held() == Parse(old(Held()) + [value]).residue
      ensures old(buffered) == MAX_FRAME ==>
        && emitted == old(emitted) + [Failed(BufferOverflow)] + Parse(old(Held())[1..] + [value]).signals
        && Held() == Parse(old(Held())[1..] + [value]).residue
    {
      hide Parse;
      if buffered == MAX_FRAME {
        emitted := emitted + [Failed(BufferOverflow)];
        DiscardPrefix(1);
      }
      Append(value);
      Process();
    }

    method Append(value: byte)
      requires Valid() && buffered < MAX_FRAME
      modifies this`buffered, buffer
      ensures Valid() && Held() == old(Held()) + [value]
    {
      buffer[buffered] := value;
      buffered := buffered + 1;
    }

    /** Decides everything the held bytes decide. */
    method Process()
      requires Valid()
      modifies this`buffered, this`emitted, buffer
      ensures Valid()
      ensures emitted == old(emitted) + Parse(old(Held())).signals
      ensures Held() == Parse(old(Held())).residue
      ensures buffered < MAX_FRAME
    {
      hide Head, Parse, MagicAt;
      ghost var start := Held();
      ghost var signalled: seq<Signal> := [];
      var more := true;
      while more
        invariant Valid()
        invariant emitted == old(emitted) + signalled
        invariant Parse(start) == Before(signalled, Parse(Held()))
        invariant !more ==> Parse(Held()) == Parsed([], Held()) && buffered < MAX_FRAME
        decreases more, buffered
      {
        var magicAt := FindMagic();
        if magicAt == buffered {
          SettledWithoutMagic(Held());
          if buffered != 0 && buffer[buffered - 1] == MAGIC0 {
            buffer[0] := MAGIC0;
            buffered := 1;
            assert Held() == [MAGIC0];
          } else {
            buffered := 0;
          }
          more := false;
        } else {
          if magicAt != 0 {
            SkipToMagic(Held(), magicAt);
            MagicOfRest(Held(), magicAt);
            DiscardPrefix(magicAt);
          }
          ghost var held := Held();
          ParseStep(held);
          more := TakeCandidate();
          if more {
            BeforeBefore(signalled, Head(held).signals, Parse(Held()));
            signalled := signalled + Head(held).signals;
          }
        }
      }
    }

    /** Judges the frame the held bytes begin with; false when it is not all there yet. */
    method TakeCandidate() returns (taken: bool)
      requires Valid()
      requires MagicAt(Held(), 0)
      modifies this`buffered, this`emitted, buffer
      ensures Valid()
      ensures taken <==> old(Head(Held())).Drop?
      ensures taken ==>
        && emitted == old(emitted) + old(Head(Held())).signals
        && Held() == old(Held())[old(Head(Held())).count..]
      ensures !taken ==> emitted == old(emitted) && Held() == old(Held()) && buffered < MAX_FRAME
    {
      hide Crc16, Judge, U16;
      if buffered < HEADER {
        return false;
      }
      var payloadLength := U16(buffer[4], buffer[5]);
      if payloadLength > MAX_PAYLOAD {
        emitted := emitted + [Failed(PayloadTooLarge)];
        DiscardPrefix(1);
        return true;
      }
      var frameLength := HEADER + payloadLength + CHECKSUM;
      if buffered < frameLength {
        return false;
      }
      var actualCrc := U16(buffer[frameLength - 2], buffer[frameLength - 1]);
      var expectedCrc := Crc16CcittFalse(buffer, frameLength - CHECKSUM);
      assert Held()[..frameLength - CHECKSUM] == buffer[..frameLength - CHECKSUM];
      if actualCrc != expectedCrc {
        emitted := emitted + [Failed(ChecksumMismatch)];
        DiscardPrefix(1);
        return true;
      }
      if buffer[2] != PROTOCOL_VERSION {
        emitted := emitted + [Failed(UnsupportedVersion)];
        DiscardPrefix(frameLength);
        return true;
      }
      var frame := Frame(buffer[2], buffer[3], U16(buffer[6], buffer[7]), buffer[HEADER..HEADER + payloadLength]);
      assert frame == FrameAt(Held());
      var signal := Validate(frame);
      emitted := emitted + [signal];
      DiscardPrefix(frameLength);
      return true;
    }

    /** The first position of the magic, or `buffered` when there is none. */
    method FindMagic() returns (magicAt: nat)
      requires Valid()
      ensures magicAt <= buffered
      ensures magicAt < buffered ==> MagicAt(Held(), magicAt)
      ensures forall i | 0 <= i < magicAt :: !MagicAt(Held(), i)
    {
      magicAt := buffered;
      var i := 0;
      while i + 1 < buffered
        invariant magicAt == buffered && i <= buffered
        invariant forall k | 0 <= k < i :: !MagicAt(Held(), k)
      {
        if buffer[i] == MAGIC0 && buffer[i + 1] == MAGIC1 {
          magicAt := i;
          break;
        }
        i := i + 1;
      }
    }

    method DiscardPrefix(count: nat)
      requires Valid()
      modifies this`buffered, buffer
      ensures Valid()
      ensures Held() == if count >= old(buffered) then [] else old(Held())[count..]
    {
      if count >= buffered {
        buffered := 0;
        return;
      }
      forall i | 0 <= i < buffered - count {
        buffer[i] := buffer[i + count];
      }
      buffered := buffered - count;
    }

    method Validate(frame: Frame) returns (signal: Signal)
      ensures signal == Judge(frame)
    {
      var exact := ExactLength(frame.messageType);
      if exact >= 0 && |frame.payload| != exact {
        return Failed(InvalidPayloadLength);
      }
      if frame.messageType == GAMEPAD_STATE {
        if frame.payload[4] > 8 {
          return Failed(InvalidHat);
        }
        var offset := 6;
        while offset <= 12
          invariant 6 <= offset <= 14 && offset % 2 == 0
          invariant forall k | 0 <= k < 4 && 6 + 2 * k < offset :: !ReservedAxis(frame.payload, 6 + 2 * k)
        {
          if ReservedAxis(frame.payload, offset) {
            assert offset == 6 + 2 * ((offset - 6) / 2);
            return Failed(ReservedAxisValue);
          }
          offset := offset + 2;
        }
        return Decoded(frame);
      }
      if frame.messageType == ERROR && |frame.payload| < 2 {
        return Failed(InvalidPayloadLength);
      }
      return Decoded(frame);
    }
  }

  /** What the decoder has done on the first `i` bytes of its input, it has done on one more. */
  lemma ParseNextByte(start: seq<byte>, data: seq<byte>, i: nat, before: seq<Signal>, signalled: seq<Signal>,
                      held: seq<byte>)
    requires i < |data|
    requires i == 0 ==> signalled == before && held == start
    requires i > 0 ==> signalled == before + Parse(start + data[..i]).signals
    requires i > 0 ==> held == Parse(start + data[..i]).residue
    ensures signalled + Parse(held + [data[i]]).signals == before + Parse(start + data[..i + 1]).signals
    ensures Parse(held + [data[i]]).residue == Parse(start + data[..i + 1]).residue
  {
    hide Parse;
    if i == 0 {
      assert start + data[..1] == held + [data[0]];
    } else {
      assert start + data[..i + 1] == (start + data[..i]) + [data[i]];
      ParseConcat(start + data[..i], [data[i]]);
    }
  }
}
