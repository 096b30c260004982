/** The two byte-at-a-time receivers as state machines, and what they make of any byte stream. */
module Receivers {
  import opened Bytes
  import opened Wrappers
  import opened Frames
  import Cobs

  /** What a closed packet means: undo the byte stuffing, then apply the acceptance test. */
  function ParsePacket(packet: seq<Byte>): (f: Option<Frame>)
  {
    var raw := Cobs.Decode(packet);
    if raw.None? || |raw.value| > MAX_RAW then None else ParseRaw(raw.value)
  }

  lemma {:induction false} ParseEncoded(f: Frame)
    requires f.Fits()
    ensures ParsePacket(Cobs.Encode(Raw(f))) == Some(f)
  {
    Cobs.RoundTrip(Raw(f));
    ParseRawIff(Raw(f), f);
  }

  // ----- the firmware receiver -----

  datatype Mode = Idle | Packet | Escape

  datatype Receiver = Receiver(mode: Mode, packet: seq<Byte>)
  {
    /** Ready for an opening marker: either outside a frame or right after a marker that opened one. */
    predicate Aligned()
    {
      mode == Idle || (mode == Packet && packet == [])
    }
  }

  /** A byte that no longer fits abandons the packet. */
  function Append(r: Receiver, b: Byte): (s: Receiver)
  {
    if |r.packet| >= MAX_ENCODED then Receiver(Idle, []) else r.(packet := r.packet + [b])
  }

  /** The receiver after one byte. */
  function Next(r: Receiver, b: Byte): (s: Receiver)
  {
    match r.mode
    case Idle => if b == MARKER then Receiver(Packet, []) else r
    case Packet =>
      if b == MARKER then (if r.packet == [] then r else Receiver(Idle, []))
      else if b == ESCAPE then r.(mode := Escape)
      else Append(r, b)
    case Escape =>
      var s := Append(r, Flip(b));
      if s.mode == Escape then s.(mode := Packet) else s
  }

  /** The frame, if any, that one byte completes. */
  function Emits(r: Receiver, b: Byte): (out: seq<Frame>)
  {
    if r.mode != Packet || b != MARKER || r.packet == [] then []
    else match ParsePacket(r.packet) case None => [] case Some(f) => [f]
  }

  function After(r: Receiver, bytes: seq<Byte>): (s: Receiver)
    decreases |bytes|
  {
    if bytes == [] then r else After(Next(r, bytes[0]), bytes[1..])
  }

  function Delivered(r: Receiver, bytes: seq<Byte>): (out: seq<Frame>)
    decreases |bytes|
  {
    if bytes == [] then [] else Emits(r, bytes[0]) + Delivered(Next(r, bytes[0]), bytes[1..])
  }

  lemma {:induction false} RunAppend(r: Receiver, a: seq<Byte>, b: seq<Byte>)
    ensures After(r, a + b) == After(After(r, a), b)
    ensures Delivered(r, a + b) == Delivered(r, a) + Delivered(After(r, a), b)
    decreases |a|
  {
    hide Next, Emits;
    if a == [] {
      assert a + b == b;
    } else {
      assert (a + b)[1..] == a[1..] + b;
      RunAppend(Next(r, a[0]), a[1..], b);
    }
  }

  lemma {:induction false} RunOne(r: Receiver, b: Byte)
    ensures After(r, [b]) == Next(r, b)
    ensures Delivered(r, [b]) == Emits(r, b)
  {
    hide Next, Emits;
    assert [b][1..] == [];
    assert After(Next(r, b), []) == Next(r, b);
    assert Delivered(Next(r, b), []) == [];
  }

  lemma {:induction false} RunStuffByte(packet: seq<Byte>, b: Byte)
    ensures After(Receiver(Packet, packet), StuffByte(b)) == Append(Receiver(Packet, packet), b)
    ensures Delivered(Receiver(Packet, packet), StuffByte(b)) == []
  {
    var r := Receiver(Packet, packet);
    if MustEscape(b) {
      FlipTwice(b);
      RunAppend(r, [ESCAPE], [Flip(b)]);
      RunOne(r, ESCAPE);
      RunOne(Next(r, ESCAPE), Flip(b));
      assert [ESCAPE] + [Flip(b)] == StuffByte(b);
    } else {
      RunOne(r, b);
    }
  }

  /** Stuffed bytes are collected unstuffed, as long as the buffer has room. */
  lemma {:induction false} RunStuffed(packet: seq<Byte>, bytes: seq<Byte>)
    requires |packet| + |bytes| <= MAX_ENCODED
    ensures After(Receiver(Packet, packet), Stuff(bytes)) == Receiver(Packet, packet + bytes)
    ensures Delivered(Receiver(Packet, packet), Stuff(bytes)) == []
    decreases |bytes|
  {
    hide After, Delivered, StuffByte, Next, Emits;
    if bytes == [] {
      assert packet + bytes == packet;
      RunNone(Receiver(Packet, packet));
    } else {
      var b := bytes[0];
      var longer := packet + [b];
      RunStuffByte(packet, b);
      RunStuffed(longer, bytes[1..]);
      RunAppend(Receiver(Packet, packet), StuffByte(b), Stuff(bytes[1..]));
      assert longer + bytes[1..] == packet + bytes;
    }
  }

  lemma {:induction false} RunNone(r: Receiver)
    ensures After(r, []) == r && Delivered(r, []) == []
  {
  }

  // ----- delivery from an aligned state -----

  lemma {:induction false} RunFrame(r: Receiver, f: Frame)
    requires r.Aligned() && f.Sendable()
    ensures After(r, Wire(f)) == Receiver(Idle, [])
    ensures Delivered(r, Wire(f)) == [f]
  {
    var encoded := Cobs.Encode(Raw(f));
    EncodedFits(f);
    ParseEncoded(f);
    hide After, Delivered, ParsePacket, Cobs.Encode, Raw, Stuff;
    RunOne(r, MARKER);
    RunStuffed([], encoded);
    assert [] + encoded == encoded;
    RunOne(Receiver(Packet, encoded), MARKER);
    RunAppend(r, [MARKER], Stuff(encoded));
    RunAppend(r, [MARKER] + Stuff(encoded), [MARKER]);
  }

  /** Frames sent back to back, or as one prebuilt batch, arrive as sent. */
  lemma {:induction false} FirmwareDelivers(r: Receiver, frames: seq<Frame>)
    requires r.Aligned() && AllSendable(frames)
    ensures Delivered(r, WireAll(frames)) == frames
    ensures After(r, WireAll(frames)).Aligned()
    decreases |frames|
  {
    hide Wire, Next, Emits;
    if frames != [] {
      RunFrame(r, frames[0]);
      FirmwareDelivers(Receiver(Idle, []), frames[1..]);
      RunAppend(r, Wire(frames[0]), WireAll(frames[1..]));
    }
  }

  // ----- self-stabilisation -----

  lemma {:induction false} IdleSkips(r: Receiver, bytes: seq<Byte>)
    requires r.mode == Idle && MARKER !in bytes
    ensures After(r, bytes) == r
    ensures Delivered(r, bytes) == []
    decreases |bytes|
  {
    if bytes != [] {
      IdleSkips(r, bytes[1..]);
    }
  }

  /** Stuffed bytes in the middle of a packet are collected, or overflow the buffer and end in `Idle`. */
  lemma {:induction false} RunStuffedAnyRoom(packet: seq<Byte>, bytes: seq<Byte>)
    ensures Delivered(Receiver(Packet, packet), Stuff(bytes)) == []
    ensures var r := After(Receiver(Packet, packet), Stuff(bytes));
            r == Receiver(Idle, []) || (r.mode == Packet && (packet != [] ==> r.packet != []))
    decreases |bytes|
  {
    hide After, Delivered, StuffByte, Next, Emits;
    if bytes == [] {
      RunNone(Receiver(Packet, packet));
    } else {
      var b, rest := bytes[0], bytes[1..];
      RunAppend(Receiver(Packet, packet), StuffByte(b), Stuff(rest));
      RunStuffByte(packet, b);
      if |packet| < MAX_ENCODED {
        RunStuffedAnyRoom(packet + [b], rest);
      } else {
        StuffedIsClean(rest);
        IdleSkips(Receiver(Idle, []), Stuff(rest));
      }
    }
  }

  /** One sent frame realigns the receiver from any state whatever, and costs at most one spurious delivery. */
  lemma {:induction false} FrameRealigns(r: Receiver, f: Frame)
    requires f.Sendable()
    ensures After(r, Wire(f)).Aligned()
    ensures |Delivered(r, Wire(f))| <= 1
  {
    if r.Aligned() {
      RunFrame(r, f);
    } else {
      hide After, Delivered, Cobs.Encode, Raw, Stuff, ParsePacket;
      var encoded := Cobs.Encode(Raw(f));
      var s := Next(r, MARKER);
      RunOne(r, MARKER);
      StuffedIsClean(encoded);
      if s.mode == Idle {
        IdleSkips(s, Stuff(encoded));
      } else {
        RunStuffedAnyRoom(s.packet, encoded);
      }
      RunOne(After(s, Stuff(encoded)), MARKER);
      RunAppend(r, [MARKER], Stuff(encoded));
      RunAppend(r, [MARKER] + Stuff(encoded), [MARKER]);
    }
  }

  /** After any garbage and one frame to resynchronise on, every later frame is delivered once and in order. */
  lemma {:induction false} FirmwareStabilises(r: Receiver, garbage: seq<Byte>, f: Frame, frames: seq<Frame>)
    requires f.Sendable() && AllSendable(frames)
    ensures Delivered(r, garbage + Wire(f) + WireAll(frames)) == Delivered(r, garbage + Wire(f)) + frames
    ensures |Delivered(r, garbage + Wire(f))| <= |Delivered(r, garbage)| + 1
  {
    hide Wire, WireAll, After, Delivered;
    var s := After(r, garbage);
    RunAppend(r, garbage, Wire(f));
    FrameRealigns(s, f);
    FirmwareDelivers(After(s, Wire(f)), frames);
    RunAppend(r, garbage + Wire(f), WireAll(frames));
  }
}
