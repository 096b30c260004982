/** The desktop end of the link: its receive state, its frame sender, and the prebuilt batches of frames. */
module SerialService {
  import opened Bytes
  import opened Wrappers
  import opened Frames
  import opened DesktopReceiver
  import opened FrameBuilder
  import Cobs
  import Crc32
  import Receivers

  /** The exceptions of the two frame builders. */
  datatype BuildError = PayloadTooLarge | EncodingFailed

  class Service {
    var receiveMode: Mode
    var lineBuffer: seq<Byte>
    var framePacketBytesRead: nat
    const framePacket: array<Byte>
    const decodedFrame: array<Byte>
    const table: seq<U32>
    /** What has been posted to the user-interface thread, oldest first. */
    var postedFrames: seq<Frame>
    var postedLines: seq<seq<Byte>>

    ghost predicate Valid()
      reads this, framePacket
    {
      && framePacket.Length == MAX_ENCODED && decodedFrame.Length == MAX_RAW
      && framePacket != decodedFrame
      && framePacketBytesRead <= MAX_ENCODED
      && Crc32.IsTable(table)
    }

    ghost function State(): (d: Desktop)
      requires Valid()
      reads this, framePacket
    {
      Desktop(receiveMode, lineBuffer, framePacket[..framePacketBytesRead])
    }

    constructor ()
      ensures Valid() && State() == Desktop(Idle, [], [])
      ensures postedFrames == [] && postedLines == []
    {
      var t := Crc32.BuildTable();
      table := t[..];
      receiveMode, lineBuffer, framePacketBytesRead := Idle, [], 0;
      framePacket := new Byte[MAX_ENCODED];
      decodedFrame := new Byte[MAX_RAW];
      postedFrames, postedLines := [], [];
    }

    method ResetReceiveState()
      requires Valid()
      modifies this`receiveMode, this`lineBuffer, this`framePacketBytesRead
      ensures Valid() && State() == Desktop(Idle, [], [])
    {
      receiveMode, lineBuffer, framePacketBytesRead := Idle, [], 0;
    }

    method AppendFramePacketByte(b: Byte)
      requires Valid()
      modifies this`receiveMode, this`lineBuffer, this`framePacketBytesRead, framePacket
      ensures Valid() && State() == Append(old(State()), b)
    {
      if framePacketBytesRead >= framePacket.Length {
        ResetReceiveState();
        return;
      }
      framePacket[framePacketBytesRead] := b;
      framePacketBytesRead := framePacketBytesRead + 1;
    }

    /** Posts the frame if the packet holds one; resets the receive state either way. */
    method CompleteFramePacket()
      requires Valid()
      modifies this, decodedFrame
      ensures Valid() && State() == Desktop(Idle, [], []) && postedLines == old(postedLines)
      ensures postedFrames == old(postedFrames) + match Receivers.ParsePacket(old(State()).packet)
                                                  case None => [] case Some(f) => [f]
    {
      hide Cobs.Decode, Crc32.Checksum, Crc32.IsTable, ReadU16, ReadU32;
      var length := Cobs.DecodeInto(framePacket[..framePacketBytesRead], decodedFrame);
      if length < HEADER_SIZE + 4 {
        ResetReceiveState();
        return;
      }
      ghost var raw := decodedFrame[..length];
      var payloadLength := ReadU16(decodedFrame[7..9]);
      assert raw[7..9] == decodedFrame[7..9];
      if payloadLength > MAX_PAYLOAD || length != HEADER_SIZE + payloadLength + 4 {
        ResetReceiveState();
        return;
      }
      var expected := ReadU32(decodedFrame[HEADER_SIZE + payloadLength..length]);
      var actual := Crc32.Compute(table, decodedFrame[..HEADER_SIZE + payloadLength]);
      assert raw[..HEADER_SIZE + payloadLength] == decodedFrame[..HEADER_SIZE + payloadLength];
      assert raw[HEADER_SIZE + payloadLength..] == decodedFrame[HEADER_SIZE + payloadLength..length];
      if actual == expected {
        var payload := decodedFrame[HEADER_SIZE..HEADER_SIZE + payloadLength];
        assert raw[3..7] == decodedFrame[3..7] && raw[HEADER_SIZE..HEADER_SIZE + payloadLength] == payload;
        var frame := Frame(decodedFrame[0], decodedFrame[1], decodedFrame[2], ReadU32(decodedFrame[3..7]), payload);
        postedFrames := postedFrames + [frame];
      }
      ResetReceiveState();
    }

    method ProcessIncomingByte(b: Byte)
      requires Valid()
      modifies this, framePacket, decodedFrame
      ensures Valid() && State() == Next(old(State()), b)
      ensures postedFrames == old(postedFrames) + EmitsFrame(old(State()), b)
      ensures postedLines == old(postedLines) + EmitsLine(old(State()), b)
    {
      match receiveMode
      case Idle =>
        if b == MARKER {
          framePacketBytesRead := 0;
          receiveMode := FramePacket;
        } else if b == AT_SIGN {
          lineBuffer := [];
          lineBuffer := lineBuffer + [AT_SIGN];
          receiveMode := Line;
        }
      case Line =>
        if b == CR {
          return;
        }
        if b == LF {
          var line := lineBuffer;
          lineBuffer := [];
          receiveMode := Idle;
          if |line| > 0 {
            postedLines := postedLines + [line];
          }
          return;
        }
        lineBuffer := lineBuffer + [b];
      case FramePacket =>
        if b == MARKER {
          if framePacketBytesRead > 0 {
            CompleteFramePacket();
          } else {
            framePacketBytesRead := 0;
          }
          return;
        }
        if b == ESCAPE {
          receiveMode := FrameEscape;
          return;
        }
        AppendFramePacketByte(b);
      case FrameEscape =>
        AppendFramePacketByte(Flip(b));
        if receiveMode == FrameEscape {
          receiveMode := FramePacket;
        }
    }

    /** The data-received handler: every byte read from the port, in order. */
    method OnDataReceived(buffer: seq<Byte>)
      requires Valid()
      modifies this, framePacket, decodedFrame
      ensures Valid() && State() == After(old(State()), buffer)
      ensures postedFrames == old(postedFrames) + Delivered(old(State()), buffer)
      ensures postedLines == old(postedLines) + Lines(old(State()), buffer)
    {
      hide Next, EmitsFrame, EmitsLine, After, Delivered, Lines;
      RunNone(State());
      var index := 0;
      while index < |buffer|
        invariant 0 <= index <= |buffer| && Valid()
        invariant State() == After(old(State()), buffer[..index])
        invariant postedFrames == old(postedFrames) + Delivered(old(State()), buffer[..index])
        invariant postedLines == old(postedLines) + Lines(old(State()), buffer[..index])
      {
        RunAppend(old(State()), buffer[..index], [buffer[index]]);
        RunOne(State(), buffer[index]);
        assert buffer[..index] + [buffer[index]] == buffer[..index + 1];
        ProcessIncomingByte(buffer[index]);
        index := index + 1;
      }
      assert buffer[..index] == buffer;
    }

    /** Appends one wire frame to a batch. `EncodingFailed` never happens. */
    method BuildFrameInto(frameType: Byte, transferId: Byte, sequence: U32, payload: seq<Byte>, output: seq<Byte>)
      returns (error: Option<BuildError>, extended: seq<Byte>)
      requires Valid()
      ensures error == if |payload| > MAX_PAYLOAD then Some(PayloadTooLarge) else None
      ensures extended == if error.Some? then output
                          else output + Wire(Frame(frameType, transferId, 0, sequence, payload))
    {
      extended := output;
      if |payload| > MAX_PAYLOAD {
        return Some(PayloadTooLarge), output;
      }
      var rawBuf := BuildRaw(table, frameType, transferId, sequence, payload);
      EncodedFits(Frame(frameType, transferId, 0, sequence, payload));
      hide Raw, Cobs.Encode, Stuff;
      var encoded := new Byte[|rawBuf| + (|rawBuf| + 253) / 254];
      var encodedLength := Cobs.EncodeDesktop(rawBuf, encoded);
      if encodedLength <= 0 {
        return Some(EncodingFailed), output;
      }
      var wire := new Byte[1 + encodedLength * 2 + 1];
      var offset := StuffBytes(encoded[..encodedLength], wire);
      error, extended := None, output + wire[..offset];
    }

    /** The bytes written to an open port: exactly one wire frame. */
    method SendFrame(connected: bool, frameType: Byte, transferId: Byte, sequence: U32, payload: seq<Byte>)
      returns (error: Option<BuildError>, written: seq<Byte>)
      requires Valid()
      ensures error == if connected && |payload| > MAX_PAYLOAD then Some(PayloadTooLarge) else None
      ensures written == if connected && |payload| <= MAX_PAYLOAD
                         then Wire(Frame(frameType, transferId, 0, sequence, payload)) else []
    {
      if !connected {
        return None, [];
      }
      error, written := BuildFrameInto(frameType, transferId, sequence, payload, []);
      if error.Some? {
        written := [];
      }
    }

    /** A window of frames prebuilt into one buffer and flushed in one write. */
    method BuildBatch(frames: seq<Frame>) returns (batch: seq<Byte>)
      requires Valid() && AllSendable(frames)
      ensures batch == WireAll(frames)
    {
      hide WireAll, Wire;
      NoFramesNoWire();
      batch := [];
      var i := 0;
      while i < |frames|
        invariant 0 <= i <= |frames| && batch == WireAll(frames[..i])
      {
        var f := frames[i];
        assert frames[..i] + [f] == frames[..i + 1];
        WireAllAppend(frames[..i], f);
        var error;
        error, batch := BuildFrameInto(f.frameType, f.transferId, f.sequence, f.payload, batch);
        assert Frame(f.frameType, f.transferId, 0, f.sequence, f.payload) == f;
        i := i + 1;
      }
      assert frames[..i] == frames;
    }
  }
}
