/** The firmware end of the link: its receive state and buffers, updated byte by byte, and its frame sender. */
module Transport {
  import opened Bytes
  import opened Wrappers
  import opened Frames
  import opened FrameBuilder
  import opened Receivers
  import Cobs
  import Crc32

  class AppCdcTransport {
    var mode: Mode
    var framePacketLength: nat
    const framePacket: array<Byte>
    const decodedFrame: array<Byte>
    const txEncoded: array<Byte>
    const txWire: array<Byte>
    const table: seq<U32>

    ghost predicate Valid()
      reads this, framePacket
    {
      && framePacket.Length == txEncoded.Length == MAX_ENCODED && decodedFrame.Length == MAX_RAW
      && txWire.Length == 1 + MAX_ENCODED * 2 + 1
      && framePacket != decodedFrame && framePacket != txEncoded && framePacket != txWire && txEncoded != txWire
      && framePacketLength <= MAX_ENCODED
      && Crc32.IsTable(table)
    }

    /** The receive state that `Receivers` reasons about. */
    ghost function State(): (r: Receiver)
      requires Valid()
      reads this, framePacket
    {
      Receiver(mode, framePacket[..framePacketLength])
    }

    constructor ()
      ensures Valid() && State() == Receiver(Idle, [])
    {
      var t := Crc32.BuildTable();
      table := t[..];
      mode, framePacketLength := Idle, 0;
      framePacket := new Byte[MAX_ENCODED];
      decodedFrame := new Byte[MAX_RAW];
      txEncoded := new Byte[MAX_ENCODED];
      txWire := new Byte[1 + MAX_ENCODED * 2 + 1];
    }

    method ResetReceiveState()
      requires Valid()
      modifies this
      ensures Valid() && State() == Receiver(Idle, [])
    {
      mode, framePacketLength := Idle, 0;
    }

    method AppendFrameByte(b: Byte)
      requires Valid()
      modifies this, framePacket
      ensures Valid() && State() == Append(old(State()), b)
    {
      if framePacketLength >= framePacket.Length {
        ResetReceiveState();
        return;
      }
      framePacket[framePacketLength] := b;
      framePacketLength := framePacketLength + 1;
    }

    /** Decodes the collected packet; only an accepted frame resets the receive state here. */
    method DecodeFrame() returns (frame: Option<Frame>)
      requires Valid()
      modifies this, decodedFrame
      ensures Valid() && frame == ParsePacket(old(State()).packet)
      ensures State() == if frame.Some? then Receiver(Idle, []) else old(State())
    {
      hide Cobs.Decode, Crc32.Checksum, Crc32.IsTable, ReadU16, ReadU32;
      var length := Cobs.DecodeInto(framePacket[..framePacketLength], decodedFrame);
      if length < HEADER_SIZE + 4 {
        return None;
      }
      var raw := decodedFrame[..length];
      var payloadLength := ReadU16(decodedFrame[7..9]);
      assert raw[7..9] == decodedFrame[7..9];
      if payloadLength > MAX_PAYLOAD || length != HEADER_SIZE + payloadLength + 4 {
        return None;
      }
      var expected := ReadU32(decodedFrame[HEADER_SIZE + payloadLength..length]);
      var actual := Crc32.Compute(table, decodedFrame[..HEADER_SIZE + payloadLength]);
      assert raw[..HEADER_SIZE + payloadLength] == decodedFrame[..HEADER_SIZE + payloadLength];
      assert raw[HEADER_SIZE + payloadLength..] == decodedFrame[HEADER_SIZE + payloadLength..length];
      if actual != expected {
        return None;
      }
      assert raw[3..7] == decodedFrame[3..7];
      frame := Some(Frame(decodedFrame[0], decodedFrame[1], decodedFrame[2], ReadU32(decodedFrame[3..7]),
                          decodedFrame[HEADER_SIZE..HEADER_SIZE + payloadLength]));
      assert raw[HEADER_SIZE..HEADER_SIZE + payloadLength] == decodedFrame[HEADER_SIZE..HEADER_SIZE + payloadLength];
      ResetReceiveState();
    }

    /** The body of the receive loop. */
    method ProcessByte(b: Byte) returns (frame: Option<Frame>)
      requires Valid()
      modifies this, framePacket, decodedFrame
      ensures Valid() && State() == Next(old(State()), b)
      ensures Emits(old(State()), b) == match frame case None => [] case Some(f) => [f]
    {
      frame := None;
      match mode
      case Idle =>
        if b == MARKER {
          framePacketLength := 0;
          mode := Packet;
        }
      case Packet =>
        if b == MARKER {
          if framePacketLength == 0 {
            return;
          }
          frame := DecodeFrame();
          if frame.None? {
            ResetReceiveState();
          }
        } else if b == ESCAPE {
          mode := Escape;
        } else {
          AppendFrameByte(b);
        }
      case Escape =>
        AppendFrameByte(Flip(b));
        if mode == Escape {
          mode := Packet;
        }
    }

    /** Reads available bytes up to the first complete frame, or all of them when there is none. */
    method Poll(available: seq<Byte>) returns (frame: Option<Frame>, read: nat)
      requires Valid()
      modifies this, framePacket, decodedFrame
      ensures Valid() && read <= |available| && State() == After(old(State()), available[..read])
      ensures Delivered(old(State()), available[..read]) == match frame case None => [] case Some(f) => [f]
      ensures frame.None? ==> read == |available|
    {
      hide After, Delivered, Next, Emits;
      RunNone(State());
      read := 0;
      while read < |available|
        invariant read <= |available| && Valid()
        invariant State() == After(old(State()), available[..read])
        invariant Delivered(old(State()), available[..read]) == []
      {
        RunAppend(old(State()), available[..read], [available[read]]);
        RunOne(State(), available[read]);
        assert available[..read] + [available[read]] == available[..read + 1];
        frame := ProcessByte(available[read]);
        read := read + 1;
        if frame.Some? {
          return;
        }
      }
      frame := None;
    }

    /** The bytes written to the port: one wire frame, or nothing when the payload is too long. */
    method SendFrame(frameType: Byte, transferId: Byte, sequence: U32, payload: seq<Byte>) returns (wire: seq<Byte>)
      requires Valid()
      modifies txEncoded, txWire
      ensures Valid() && State() == old(State())
      ensures wire == if |payload| > MAX_PAYLOAD then [] else Wire(Frame(frameType, transferId, 0, sequence, payload))
    {
      if |payload| > MAX_PAYLOAD {
        return [];
      }
      ghost var f := Frame(frameType, transferId, 0, sequence, payload);
      var txRaw := BuildRaw(table, frameType, transferId, sequence, payload);
      EncodedFits(f);
      hide Raw, Cobs.Encode, Stuff;

      var encodedLength := Cobs.EncodeFirmware(txRaw, txEncoded);
      if encodedLength == 0 {
        return [];
      }
      var wireLength := StuffBytes(txEncoded[..encodedLength], txWire);
      wire := txWire[..wireLength];
    }
  }
}
