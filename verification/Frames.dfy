/** The frame format of the link: layout, acceptance test, encoded size and wire bytes. */
module Frames {
  import opened Bytes
  import opened Wrappers
  import Cobs
  import Crc32

  const MARKER: Byte := 0x7E
  const ESCAPE: Byte := 0x7D
  const ESCAPE_XOR: Byte := 0x20
  const CR: Byte := 0x0D
  const LF: Byte := 0x0A

  const HEADER_SIZE: nat := 9
  const MAX_PAYLOAD: nat := 4096
  const MAX_RAW: nat := HEADER_SIZE + MAX_PAYLOAD + 4
  const MAX_ENCODED: nat := MAX_RAW + (MAX_RAW + 253) / 254

  datatype Frame = Frame(frameType: Byte, transferId: Byte, flags: Byte, sequence: U32, payload: seq<Byte>)
  {
    predicate Fits()
    {
      |payload| <= MAX_PAYLOAD
    }

    /** Every frame a sender builds has zero in the reserved flags byte. */
    predicate Sendable()
    {
      Fits() && flags == 0
    }
  }

  // ----- raw frames -----

  function Body(f: Frame): (raw: seq<Byte>)
    requires f.Fits()
    ensures |raw| == HEADER_SIZE + |f.payload|
  {
    [f.frameType, f.transferId, f.flags] + WriteU32(f.sequence) + WriteU16(|f.payload|) + f.payload
  }

  function Raw(f: Frame): (raw: seq<Byte>)
    requires f.Fits()
    ensures |raw| == HEADER_SIZE + |f.payload| + 4
  {
    Body(f) + WriteU32(Crc32.Checksum(Body(f)))
  }

  /** `decode_frame` and `CompleteFramePacket`, after the byte stuffing is undone. */
  function ParseRaw(raw: seq<Byte>): (f: Option<Frame>)
  {
    if |raw| < HEADER_SIZE + 4 then None
    else
      var length := ReadU16(raw[7..9]);
      if length > MAX_PAYLOAD || |raw| != HEADER_SIZE + length + 4 then None
      else if Crc32.Checksum(raw[..HEADER_SIZE + length]) != ReadU32(raw[HEADER_SIZE + length..]) then None
      else Some(Frame(raw[0], raw[1], raw[2], ReadU32(raw[3..7]), raw[HEADER_SIZE..HEADER_SIZE + length]))
  }

  /** The acceptance test admits exactly the serialized frames, and returns the one that was serialized. */
  lemma {:induction false} ParseRawIff(raw: seq<Byte>, f: Frame)
    ensures ParseRaw(raw) == Some(f) <==> f.Fits() && raw == Raw(f)
  {
    if f.Fits() && raw == Raw(f) {
      ParseOfRaw(f);
    }
    if ParseRaw(raw) == Some(f) {
      RawOfParse(raw, f);
    }
  }

  lemma {:induction false} ParseOfRaw(f: Frame)
    requires f.Fits()
    ensures ParseRaw(Raw(f)) == Some(f)
  {
    hide Crc32.Checksum;
    var raw, length := Raw(f), |f.payload|;
    var check := Crc32.Checksum(Body(f));
    assert raw[7..9] == WriteU16(length);
    assert raw[3..7] == WriteU32(f.sequence);
    assert raw[..HEADER_SIZE + length] == Body(f);
    assert raw[HEADER_SIZE + length..] == WriteU32(check);
    assert raw[HEADER_SIZE..HEADER_SIZE + length] == f.payload;
    ReadWriteU32(f.sequence);
    ReadWriteU32(check);
  }

  lemma {:induction false} RawOfParse(raw: seq<Byte>, f: Frame)
    requires ParseRaw(raw) == Some(f)
    ensures f.Fits() && raw == Raw(f)
  {
    hide Crc32.Checksum;
    var length := |f.payload|;
    WriteReadU32(raw[3..7]);
    WriteReadU32(raw[HEADER_SIZE + length..]);
    WriteReadU16(raw[7..9]);
    assert raw[..HEADER_SIZE + length] == Body(f);
    assert raw == raw[..HEADER_SIZE + length] + raw[HEADER_SIZE + length..];
  }

  // ----- burst detection -----

  /** `raw'` is `raw` with bytes altered only inside the four positions from `k`. */
  predicate AlteredWithin(raw: seq<Byte>, raw': seq<Byte>, k: nat)
  {
    |raw| == |raw'| && k + 4 <= |raw| && raw[..k] == raw'[..k] && raw[k + 4..] == raw'[k + 4..]
  }

  lemma {:induction false} AcceptedEndsInResidue(raw: seq<Byte>)
    requires ParseRaw(raw).Some?
    ensures Crc32.Running(raw) == Crc32.RESIDUE
  {
    hide Crc32.Running, Crc32.Checksum;
    var n := |raw| - 4;
    Crc32.ChecksumIffResidue(raw[..n], raw[n..]);
    assert raw[..n] + raw[n..] == raw;
  }

  lemma {:induction false} Window(raw: seq<Byte>, k: nat)
    requires k + 4 <= |raw|
    ensures raw == raw[..k] + raw[k..k + 4] + raw[k + 4..]
  {
  }

  lemma {:induction false} AlterationChangesRegister(raw: seq<Byte>, raw': seq<Byte>, k: nat)
    requires AlteredWithin(raw, raw', k) && raw != raw'
    ensures Crc32.Running(raw) != Crc32.Running(raw')
  {
    hide Crc32.Register, Crc32.Running;
    Window(raw, k);
    Window(raw', k);
    Crc32.BurstChangesRegister(raw[..k], raw[k..k + 4], raw'[k..k + 4], raw[k + 4..]);
  }

  /** Any alteration confined to four consecutive bytes, wherever they lie, is rejected. */
  lemma {:induction false} BurstIsRejected(raw: seq<Byte>, raw': seq<Byte>, k: nat)
    requires ParseRaw(raw).Some? && AlteredWithin(raw, raw', k) && raw != raw'
    ensures ParseRaw(raw').None?
  {
    hide ParseRaw, Crc32.Register, Crc32.Running, AlteredWithin;
    AlterationChangesRegister(raw, raw', k);
    AcceptedEndsInResidue(raw);
    if ParseRaw(raw').Some? {
      AcceptedEndsInResidue(raw');
    }
  }

  // ----- encoded size -----

  /** The encoding of a sent frame fits both the desktop's per-frame buffer and the fixed receive buffer. */
  lemma {:induction false} EncodedFits(f: Frame)
    requires f.Sendable()
    ensures |Cobs.Encode(Raw(f))| <= Cobs.Budget(|Raw(f)|) <= MAX_ENCODED
  {
    assert Raw(f)[2] == 0;
    Cobs.FitsBudgetIff(Raw(f));
  }

  /** A maximum frame with a zero-free payload fills the 4126-byte receive buffer exactly. */
  lemma {:induction false} MaximumFrameFillsBuffer(f: Frame)
    requires f.Sendable() && |f.payload| == MAX_PAYLOAD && 0 !in f.payload
    ensures |Cobs.Encode(Raw(f))| == MAX_ENCODED
  {
    var raw := Raw(f);
    var head, tail := raw[..8], raw[8..];
    assert raw == head + tail;
    assert head[7] == 0 && tail[0] == 16;
    assert tail[..4097] == [16] + f.payload;
    Cobs.EncodedLength(raw);
    Cobs.BlocksAfterHead(head, tail);
    Cobs.BlocksOfLongRun(tail, 4097);
  }

  // ----- wire bytes -----

  predicate MustEscape(b: Byte)
  {
    b == MARKER || b == ESCAPE || b == CR || b == LF
  }

  function Flip(b: Byte): (c: Byte)
  {
    XorBound8(b, ESCAPE_XOR);
    Xor(b, ESCAPE_XOR)
  }

  lemma {:induction false} FlipTwice(b: Byte)
    ensures Flip(Flip(b)) == b
  {
    XorCancels(b, ESCAPE_XOR);
  }

  function StuffByte(b: Byte): (wire: seq<Byte>)
  {
    if MustEscape(b) then [ESCAPE, Flip(b)] else [b]
  }

  function Stuff(bytes: seq<Byte>): (wire: seq<Byte>)
  {
    if bytes == [] then [] else StuffByte(bytes[0]) + Stuff(bytes[1..])
  }

  function Wire(f: Frame): (wire: seq<Byte>)
    requires f.Fits()
  {
    [MARKER] + Stuff(Cobs.Encode(Raw(f))) + [MARKER]
  }

  predicate AllSendable(frames: seq<Frame>)
  {
    forall i :: 0 <= i < |frames| ==> frames[i].Sendable()
  }

  function WireAll(frames: seq<Frame>): (wire: seq<Byte>)
    requires AllSendable(frames)
  {
    if frames == [] then [] else Wire(frames[0]) + WireAll(frames[1..])
  }

  lemma {:induction false} NoFramesNoWire()
    ensures WireAll([]) == []
  {
  }

  lemma {:induction false} WireAllAppend(frames: seq<Frame>, f: Frame)
    requires AllSendable(frames + [f])
    ensures AllSendable(frames) && f.Sendable()
    ensures WireAll(frames + [f]) == WireAll(frames) + Wire(f)
  {
    assert f == (frames + [f])[|frames|];
    assert forall i :: 0 <= i < |frames| ==> frames[i] == (frames + [f])[i];
    if frames == [] {
      assert [f][1..] == [];
      assert WireAll([]) == [];
    } else {
      assert (frames + [f])[1..] == frames[1..] + [f];
      WireAllAppend(frames[1..], f);
    }
  }

  lemma {:induction false} StuffAppend(a: seq<Byte>, b: seq<Byte>)
    ensures Stuff(a + b) == Stuff(a) + Stuff(b)
  {
    if a == [] {
      assert a + b == b;
    } else {
      assert (a + b)[1..] == a[1..] + b;
      StuffAppend(a[1..], b);
    }
  }

  lemma {:induction false} StuffLength(bytes: seq<Byte>)
    ensures |bytes| <= |Stuff(bytes)| <= 2 * |bytes|
  {
    if bytes != [] {
      StuffLength(bytes[1..]);
    }
  }

  /** Between the markers there is never a marker, a carriage return or a line feed. */
  lemma {:induction false} StuffedIsClean(bytes: seq<Byte>)
    ensures MARKER !in Stuff(bytes) && CR !in Stuff(bytes) && LF !in Stuff(bytes)
  {
    if bytes != [] {
      StuffedIsClean(bytes[1..]);
      FlipSpecial();
    }
  }

  lemma {:induction false} FlipSpecial()
    ensures Flip(MARKER) == 0x5E && Flip(ESCAPE) == 0x5D && Flip(CR) == 0x2D && Flip(LF) == 0x2A
  {
    assert Xor(3, 1) == 2 && Xor(7, 2) == 5 && Xor(15, 4) == 11;
    assert Xor(31, 8) == 23 && Xor(63, 16) == 47 && Xor(126, 32) == 94;
    assert Xor(62, 16) == 46 && Xor(125, 32) == 93;
    assert Xor(5, 16) == 21 && Xor(10, 32) == 42;
    assert Xor(6, 16) == 22 && Xor(13, 32) == 45;
  }
}
