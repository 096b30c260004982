/** The desktop receiver, which also understands text lines that start with '@'. */
module DesktopReceiver {
  import opened Bytes
  import opened Wrappers
  import opened Frames
  import Cobs
  import R = Receivers

  const AT_SIGN: Byte := 0x40

  datatype Mode = Idle | Line | FramePacket | FrameEscape

  datatype Desktop = Desktop(mode: Mode, line: seq<Byte>, packet: seq<Byte>)
  {
    predicate Aligned()
    {
      mode == Idle || (mode == FramePacket && packet == [])
    }

    /** The same state as the firmware would see it. */
    function Link(): (r: R.Receiver)
      requires mode != Line
    {
      R.Receiver(match mode case Idle => R.Idle case FramePacket => R.Packet case FrameEscape => R.Escape, packet)
    }
  }

  function Append(d: Desktop, b: Byte): (s: Desktop)
  {
    if |d.packet| >= MAX_ENCODED then Desktop(Idle, [], []) else d.(packet := d.packet + [b])
  }

  function Next(d: Desktop, b: Byte): (s: Desktop)
  {
    match d.mode
    case Idle =>
      if b == MARKER then Desktop(FramePacket, d.line, [])
      else if b == AT_SIGN then Desktop(Line, [AT_SIGN], d.packet)
      else d
    case Line =>
      if b == CR then d
      else if b == LF then Desktop(Idle, [], d.packet)
      else d.(line := d.line + [b])
    case FramePacket =>
      if b == MARKER then (if d.packet == [] then d else Desktop(Idle, [], []))
      else if b == ESCAPE then d.(mode := FrameEscape)
      else Append(d, b)
    case FrameEscape =>
      var s := Append(d, Flip(b));
      if s.mode == FrameEscape then s.(mode := FramePacket) else s
  }

  function EmitsFrame(d: Desktop, b: Byte): (out: seq<Frame>)
  {
    if d.mode != FramePacket || b != MARKER || d.packet == [] then []
    else match R.ParsePacket(d.packet) case None => [] case Some(f) => [f]
  }

  function EmitsLine(d: Desktop, b: Byte): (out: seq<seq<Byte>>)
  {
    if d.mode == Line && b == LF && d.line != [] then [d.line] else []
  }

  function After(d: Desktop, bytes: seq<Byte>): (s: Desktop)
    decreases |bytes|
  {
    if bytes == [] then d else After(Next(d, bytes[0]), bytes[1..])
  }

  function Delivered(d: Desktop, bytes: seq<Byte>): (out: seq<Frame>)
    decreases |bytes|
  {
    if bytes == [] then [] else EmitsFrame(d, bytes[0]) + Delivered(Next(d, bytes[0]), bytes[1..])
  }

  function Lines(d: Desktop, bytes: seq<Byte>): (out: seq<seq<Byte>>)
    decreases |bytes|
  {
    if bytes == [] then [] else EmitsLine(d, bytes[0]) + Lines(Next(d, bytes[0]), bytes[1..])
  }

  /** No state along the way is in `Line` mode. */
  predicate NeverInLine(d: Desktop, bytes: seq<Byte>)
    decreases |bytes|
  {
    d.mode != Line && (bytes != [] ==> NeverInLine(Next(d, bytes[0]), bytes[1..]))
  }

  lemma {:induction false} RunAppend(d: Desktop, a: seq<Byte>, b: seq<Byte>)
    ensures After(d, a + b) == After(After(d, a), b)
    ensures Delivered(d, a + b) == Delivered(d, a) + Delivered(After(d, a), b)
    ensures Lines(d, a + b) == Lines(d, a) + Lines(After(d, a), b)
    decreases |a|
  {
    hide Next, EmitsFrame, EmitsLine;
    if a == [] {
      assert a + b == b;
    } else {
      assert (a + b)[1..] == a[1..] + b;
      RunAppend(Next(d, a[0]), a[1..], b);
    }
  }

  lemma {:induction false} RunNone(d: Desktop)
    ensures After(d, []) == d && Delivered(d, []) == [] && Lines(d, []) == []
  {
  }

  lemma {:induction false} RunOne(d: Desktop, b: Byte)
    ensures After(d, [b]) == Next(d, b)
    ensures Delivered(d, [b]) == EmitsFrame(d, b)
    ensures Lines(d, [b]) == EmitsLine(d, b)
  {
    hide Next, EmitsFrame, EmitsLine;
    assert Lines(Next(d, b), []) == [];
    assert [b][1..] == [];
    assert After(Next(d, b), []) == Next(d, b);
    assert Delivered(Next(d, b), []) == [];
  }

  // ----- outside Line mode both receivers agree -----

  /** A stream on which the firmware receiver never meets an '@' between frames. */
  predicate Quiet(r: R.Receiver, bytes: seq<Byte>)
    decreases |bytes|
  {
    bytes != [] ==> (r.mode == R.Idle ==> bytes[0] != AT_SIGN) && Quiet(R.Next(r, bytes[0]), bytes[1..])
  }

  lemma {:induction false} AgreesWithFirmware(d: Desktop, bytes: seq<Byte>)
    requires d.mode != Line && Quiet(d.Link(), bytes)
    ensures NeverInLine(d, bytes)
    ensures After(d, bytes).mode != Line && After(d, bytes).Link() == R.After(d.Link(), bytes)
    ensures Delivered(d, bytes) == R.Delivered(d.Link(), bytes)
    decreases |bytes|
  {
    if bytes != [] {
      assert Next(d, bytes[0]).Link() == R.Next(d.Link(), bytes[0]);
      AgreesWithFirmware(Next(d, bytes[0]), bytes[1..]);
    }
  }

  lemma {:induction false} QuietAppend(r: R.Receiver, a: seq<Byte>, b: seq<Byte>)
    requires Quiet(r, a) && Quiet(R.After(r, a), b)
    ensures Quiet(r, a + b)
    decreases |a|
  {
    hide R.Next;
    if a == [] {
      assert a + b == b;
    } else {
      assert (a + b)[1..] == a[1..] + b;
      QuietAppend(R.Next(r, a[0]), a[1..], b);
    }
  }

  /** While a packet has room the receiver does not fall back to `Idle`, so its bytes may contain '@'. */
  lemma {:induction false} QuietStuffed(packet: seq<Byte>, bytes: seq<Byte>)
    requires |packet| + |bytes| <= MAX_ENCODED
    ensures Quiet(R.Receiver(R.Packet, packet), Stuff(bytes))
    decreases |bytes|
  {
    if bytes != [] {
      var r, b := R.Receiver(R.Packet, packet), bytes[0];
      QuietStuffByte(packet, b);
      hide Quiet, R.After, StuffByte;
      R.RunStuffByte(packet, b);
      QuietStuffed(packet + [b], bytes[1..]);
      QuietAppend(r, StuffByte(b), Stuff(bytes[1..]));
    }
  }

  lemma {:induction false} QuietStuffByte(packet: seq<Byte>, b: Byte)
    requires |packet| < MAX_ENCODED
    ensures Quiet(R.Receiver(R.Packet, packet), StuffByte(b))
  {
    if MustEscape(b) {
      QuietTwo(R.Receiver(R.Packet, packet), ESCAPE, Flip(b));
    } else {
      QuietOne(R.Receiver(R.Packet, packet), b);
    }
  }

  lemma {:induction false} QuietOne(r: R.Receiver, b: Byte)
    requires r.mode == R.Idle ==> b != AT_SIGN
    ensures Quiet(r, [b])
  {
    assert Quiet(R.Next(r, b), [b][1..]);
  }

  lemma {:induction false} QuietTwo(r: R.Receiver, a: Byte, b: Byte)
    requires r.mode == R.Idle ==> a != AT_SIGN
    requires R.Next(r, a).mode == R.Idle ==> b != AT_SIGN
    ensures Quiet(r, [a, b])
  {
    QuietOne(R.Next(r, a), b);
    assert [a, b][1..] == [b];
  }

  lemma {:induction false} QuietFrame(r: R.Receiver, f: Frame)
    requires r.Aligned() && f.Sendable()
    ensures Quiet(r, Wire(f))
  {
    var encoded := Cobs.Encode(Raw(f));
    var inPacket := R.Receiver(R.Packet, []);
    EncodedFits(f);
    hide Quiet, R.After, Stuff, Cobs.Encode, Raw;
    QuietOne(r, MARKER);
    QuietStuffed([], encoded);
    R.RunOne(r, MARKER);
    R.RunStuffed([], encoded);
    QuietOne(R.After(inPacket, Stuff(encoded)), MARKER);
    R.RunAppend(r, [MARKER], Stuff(encoded));
    QuietAppend(r, [MARKER], Stuff(encoded));
    QuietAppend(r, [MARKER] + Stuff(encoded), [MARKER]);
  }

  lemma {:induction false} QuietFrames(r: R.Receiver, frames: seq<Frame>)
    requires r.Aligned() && AllSendable(frames)
    ensures Quiet(r, WireAll(frames))
    decreases |frames|
  {
    hide Wire, R.Next;
    if frames != [] {
      QuietFrame(r, frames[0]);
      R.RunFrame(r, frames[0]);
      QuietFrames(R.After(r, Wire(frames[0])), frames[1..]);
      QuietAppend(r, Wire(frames[0]), WireAll(frames[1..]));
    }
  }

  // ----- delivery from an aligned state -----

  /** Back-to-back frames, from either sender, arrive as sent, and nothing in them is taken for a text line. */
  lemma {:induction false} DesktopDelivers(d: Desktop, frames: seq<Frame>)
    requires d.Aligned() && AllSendable(frames)
    ensures Delivered(d, WireAll(frames)) == frames
    ensures After(d, WireAll(frames)).Aligned()
    ensures NeverInLine(d, WireAll(frames))
  {
    hide WireAll, Quiet, NeverInLine, Delivered, After, R.Delivered, R.After;
    QuietFrames(d.Link(), frames);
    AgreesWithFirmware(d, WireAll(frames));
    R.FirmwareDelivers(d.Link(), frames);
  }

  // ----- Line mode swallows frames -----

  lemma {:induction false} LineModeIsDeaf(d: Desktop, bytes: seq<Byte>)
    requires d.mode == Line
    ensures LF !in bytes ==> After(d, bytes).mode == Line && Delivered(d, bytes) == []
    decreases |bytes|
  {
    if bytes != [] && bytes[0] != LF {
      LineModeIsDeaf(Next(d, bytes[0]), bytes[1..]);
    }
  }

  lemma {:induction false} FramesHaveNoLineFeed(frames: seq<Frame>)
    requires AllSendable(frames)
    ensures LF !in WireAll(frames)
    decreases |frames|
  {
    if frames != [] {
      FramesHaveNoLineFeed(frames[1..]);
      StuffedIsClean(Cobs.Encode(Raw(frames[0])));
    }
  }

  /** One '@' between frames silences the receiver for as many frames as follow: no self-stabilisation here. */
  lemma {:induction false} StrayAtSignSilences(d: Desktop, frames: seq<Frame>)
    requires d.mode == Idle && AllSendable(frames)
    ensures Delivered(d, [AT_SIGN] + WireAll(frames)) == []
    ensures After(d, [AT_SIGN] + WireAll(frames)).mode == Line
  {
    var wire := WireAll(frames);
    FramesHaveNoLineFeed(frames);
    LineModeIsDeaf(Next(d, AT_SIGN), wire);
    assert ([AT_SIGN] + wire)[1..] == wire;
    assert ([AT_SIGN] + wire)[0] == AT_SIGN;
  }

  /** The line feed that ends the text line restores delivery. */
  lemma {:induction false} LineFeedRestores(d: Desktop, text: seq<Byte>, frames: seq<Frame>)
    requires d.mode == Line && LF !in text && AllSendable(frames)
    ensures Delivered(d, text + [LF] + WireAll(frames)) == frames
  {
    hide WireAll;
    var s := After(d, text);
    LineModeIsDeaf(d, text);
    assert [LF][1..] == [];
    assert After(s, [LF]) == Next(s, LF) && Delivered(s, [LF]) == [];
    DesktopDelivers(Next(s, LF), frames);
    RunAppend(d, text, [LF]);
    RunAppend(d, text + [LF], WireAll(frames));
  }

  // ----- exactly when the desktop stabilises -----

  /** Without a line feed there is no way out of Line mode, so not being in it at the end means never having been. */
  lemma {:induction false} NotInLineMeansQuiet(d: Desktop, bytes: seq<Byte>)
    requires d.mode != Line && LF !in bytes && After(d, bytes).mode != Line
    ensures Quiet(d.Link(), bytes)
    decreases |bytes|
  {
    if bytes != [] {
      var next, rest := Next(d, bytes[0]), bytes[1..];
      if next.mode == Line {
        LineModeIsDeaf(next, rest);
      }
      assert next.Link() == R.Next(d.Link(), bytes[0]);
      NotInLineMeansQuiet(next, rest);
    }
  }

  lemma {:induction false} FrameHasNoLineFeed(f: Frame)
    requires f.Sendable()
    ensures LF !in Wire(f)
  {
    StuffedIsClean(Cobs.Encode(Raw(f)));
  }

  /** The receiver has recovered: whatever is sent from here on arrives as sent. */
  ghost predicate DeliversFrom(s: Desktop)
  {
    forall frames: seq<Frame> :: AllSendable(frames) ==> Delivered(s, WireAll(frames)) == frames
  }

  lemma {:induction false} LineModeDeliversNothing(s: Desktop, f: Frame)
    requires s.mode == Line && f.Sendable()
    ensures !DeliversFrom(s)
  {
    var frames := [f];
    FramesHaveNoLineFeed(frames);
    LineModeIsDeaf(s, WireAll(frames));
    assert AllSendable(frames) && Delivered(s, WireAll(frames)) == [] != frames;
  }

  /** In `Idle` the bytes of a frame are scanned, and the only one that matters is '@'. */
  lemma {:induction false} IdleScan(d: Desktop, bytes: seq<Byte>)
    requires d.mode == Idle && MARKER !in bytes && LF !in bytes
    ensures After(d, bytes).mode == Line <==> AT_SIGN in bytes
    ensures AT_SIGN !in bytes ==> After(d, bytes) == d
    decreases |bytes|
  {
    if bytes != [] {
      if bytes[0] == AT_SIGN {
        LineModeIsDeaf(Next(d, bytes[0]), bytes[1..]);
      } else {
        IdleScan(d, bytes[1..]);
      }
    }
  }

  lemma {:induction false} StuffedByte(d: Desktop, b: Byte)
    requires d.mode == FramePacket
    ensures After(d, StuffByte(b)) == Append(d, b)
  {
    if MustEscape(b) {
      FlipTwice(b);
      RunAppend(d, [ESCAPE], [Flip(b)]);
      RunOne(d, ESCAPE);
      RunOne(Next(d, ESCAPE), Flip(b));
      assert [ESCAPE] + [Flip(b)] == StuffByte(b);
    } else {
      RunOne(d, b);
    }
  }

  /** Stuffed bytes are collected until the buffer is full; the byte that no longer fits abandons the packet, and what
      comes after it is scanned. */
  lemma {:induction false} CollectOrScan(d: Desktop, bytes: seq<Byte>)
    requires d.mode == FramePacket && |d.packet| <= MAX_ENCODED
    ensures var room := MAX_ENCODED - |d.packet|;
      After(d, Stuff(bytes)).mode == Line <==> |bytes| > room && AT_SIGN in Stuff(bytes[room + 1..])
    decreases |bytes|
  {
    hide After, StuffByte, Delivered, Lines;
    var room := MAX_ENCODED - |d.packet|;
    if bytes == [] {
      RunNone(d);
    } else {
      var rest := bytes[1..];
      RunAppend(d, StuffByte(bytes[0]), Stuff(rest));
      StuffedByte(d, bytes[0]);
      if room == 0 {
        StuffedIsClean(rest);
        IdleScan(Append(d, bytes[0]), Stuff(rest));
      } else {
        CollectOrScan(Append(d, bytes[0]), rest);
        if |bytes| > room {
          assert rest[room..] == bytes[room + 1..];
        }
      }
    }
  }

  /** The part of a frame, on the wire, that a receiver in state `s` meets between frames: all of it when the opening
      marker closes a packet or finds no room, what follows an overflow, or nothing. */
  function Exposed(s: Desktop, f: Frame): (bytes: seq<Byte>)
    requires f.Sendable()
  {
    var encoded, used := Cobs.Encode(Raw(f)), |s.packet|;
    match s.mode
    case Idle => []
    case Line => []
    case FramePacket => if s.packet == [] then [] else Stuff(encoded)
    case FrameEscape =>
      if used >= MAX_ENCODED then Stuff(encoded)
      else if |encoded| > MAX_ENCODED - used - 1 then Stuff(encoded[MAX_ENCODED - used..])
      else []
  }

  lemma {:induction false} MarkerKeepsLine(s: Desktop)
    ensures Next(s, MARKER).mode == Line <==> s.mode == Line
  {
  }

  /** A frame on the wire is a marker, the stuffed bytes and a marker. */
  lemma {:induction false} FrameInParts(s: Desktop, f: Frame)
    requires f.Sendable()
    ensures After(s, Wire(f)) == Next(After(Next(s, MARKER), Stuff(Cobs.Encode(Raw(f)))), MARKER)
  {
    hide After, Stuff, Cobs.Encode, Raw, Delivered, Lines, Next;
    var stuffed := Stuff(Cobs.Encode(Raw(f)));
    RunOne(s, MARKER);
    RunAppend(s, [MARKER], stuffed);
    RunAppend(s, [MARKER] + stuffed, [MARKER]);
    RunOne(After(Next(s, MARKER), stuffed), MARKER);
  }

  /** A frame leaves the receiver in Line mode exactly when it was in it, or meets an '@' in the exposed part. */
  lemma {:induction false} LineAfterFrameIff(s: Desktop, f: Frame)
    requires f.Sendable()
    ensures After(s, Wire(f)).mode == Line <==> s.mode == Line || AT_SIGN in Exposed(s, f)
  {
    hide After, Stuff, Wire, Cobs.Encode, Raw, Flip;
    var encoded := Cobs.Encode(Raw(f));
    var begun := Next(s, MARKER);
    FrameInParts(s, f);
    EncodedFits(f);
    StuffedIsClean(encoded);
    var last := After(begun, Stuff(encoded));
    MarkerKeepsLine(s);
    MarkerKeepsLine(last);
    match s.mode
    case Line => LineModeIsDeaf(begun, Stuff(encoded));
    case Idle => CollectOrScan(begun, encoded);
    case FramePacket =>
      if s.packet == [] {
        CollectOrScan(begun, encoded);
      } else {
        IdleScan(begun, Stuff(encoded));
      }
    case FrameEscape =>
      if |s.packet| >= MAX_ENCODED {
        IdleScan(begun, Stuff(encoded));
      } else {
        CollectOrScan(begun, encoded);
      }
  }

  lemma {:induction false} RealignsUnlessInLine(s: Desktop, f: Frame)
    requires f.Sendable() && After(s, Wire(f)).mode != Line
    ensures After(s, Wire(f)).Aligned()
  {
    hide Wire, After, R.After, Quiet, Delivered, R.Delivered, NeverInLine;
    FrameHasNoLineFeed(f);
    if s.mode == Line {
      LineModeIsDeaf(s, Wire(f));
    }
    NotInLineMeansQuiet(s, Wire(f));
    AgreesWithFirmware(s, Wire(f));
    R.FrameRealigns(s.Link(), f);
  }

  /** After any bytes whatever and one sent frame, the desktop delivers everything that follows if and only if those
      bytes did not leave it in Line mode and the frame has no '@' in the part exposed to the state they left. */
  lemma {:induction false} DesktopStabilisesIff(d: Desktop, garbage: seq<Byte>, f: Frame)
    requires f.Sendable()
    ensures var s := After(d, garbage);
      DeliversFrom(After(d, garbage + Wire(f))) <==> s.mode != Line && AT_SIGN !in Exposed(s, f)
  {
    hide Wire, WireAll, After, Delivered, NeverInLine, Exposed;
    var s, t := After(d, garbage), After(d, garbage + Wire(f));
    RunAppend(d, garbage, Wire(f));
    LineAfterFrameIff(s, f);
    if t.mode == Line {
      LineModeDeliversNothing(t, f);
    } else {
      RealignsUnlessInLine(s, f);
      forall frames: seq<Frame> | AllSendable(frames) ensures Delivered(t, WireAll(frames)) == frames {
        DesktopDelivers(t, frames);
      }
    }
  }

  // ----- a receiver that never saw a stray '@' -----

  /** Every frame of transfer 64 has an '@' on the wire. */
  lemma {:induction false} TransferSixtyFour(f: Frame)
    requires f.Sendable() && f.transferId == AT_SIGN
    ensures AT_SIGN in Stuff(Cobs.Encode(Raw(f)))
  {
    var raw := Raw(f);
    assert raw[1] == AT_SIGN && raw[2] == 0;
    hide Raw, Stuff, Cobs.EncodeFrom;
    ShortFirstBlock(raw);
    var encoded := Cobs.Encode(raw);
    StuffAppend(encoded[..2], encoded[2..]);
    assert encoded == encoded[..2] + encoded[2..];
    StuffStartsWith(encoded[2..]);
  }

  lemma {:induction false} ShortFirstBlock(raw: seq<Byte>)
    requires |raw| >= 3 && raw[1] != 0 && raw[2] == 0
    ensures |Cobs.Encode(raw)| > 2 && Cobs.Encode(raw)[2] == raw[1]
  {
    var first := if raw[0] == 0 then [] else [raw[0]];
    assert [] + [raw[0]] == [raw[0]] && raw[1..][1..] == raw[2..];
    assert Cobs.EncodeFrom(first + [raw[1]], raw[2..]) == Cobs.EncodeFrom(first, raw[1..]);
    assert Cobs.Encode(raw) == (if raw[0] == 0 then [1] else []) + Cobs.EncodeFrom(first, raw[1..]);
  }

  lemma {:induction false} StuffStartsWith(bytes: seq<Byte>)
    requires bytes != [] && bytes[0] == AT_SIGN
    ensures AT_SIGN in Stuff(bytes)
  {
    assert StuffByte(AT_SIGN) == [AT_SIGN];
    assert Stuff(bytes)[0] == AT_SIGN;
  }

  /** The second way to lose the desktop: noise without any '@' that ends inside a packet, then a frame of transfer 64.
      Its opening marker closes the packet, its own '@' is taken for a text line, and nothing is delivered any more. */
  lemma {:induction false} MidPacketFrameSilences(d: Desktop, b: Byte, f: Frame)
    requires d.mode == Idle && !MustEscape(b) && b != AT_SIGN
    requires f.Sendable() && f.transferId == AT_SIGN
    ensures AT_SIGN !in [MARKER, b]
    ensures !DeliversFrom(After(d, [MARKER, b] + Wire(f)))
  {
    hide DeliversFrom, Wire;
    var begun := Next(d, MARKER);
    assert [MARKER, b][1..] == [b];
    RunOne(begun, b);
    assert After(d, [MARKER, b]) == After(begun, [b]);
    TransferSixtyFour(f);
    DesktopStabilisesIff(d, [MARKER, b], f);
  }
}
