/** The loops that both programs use to build the bytes of one frame. */
module FrameBuilder {
  import opened Bytes
  import opened Frames
  import Crc32

  /** Writes the marked and escaped form of the encoded bytes. */
  method StuffBytes(encoded: seq<Byte>, wire: array<Byte>) returns (length: nat)
    requires wire.Length >= 1 + |encoded| * 2 + 1
    modifies wire
    ensures length <= wire.Length
    ensures wire[..length] == [MARKER] + Stuff(encoded) + [MARKER]
  {
    hide MustEscape, Stuff, StuffByte, Flip;
    Put(wire, 0, MARKER);
    length := 1;
    ghost var done := [MARKER];
    StuffStart(encoded);
    var i := 0;
    while i < |encoded|
      invariant i <= |encoded| && 1 <= length <= 1 + 2 * i
      invariant wire[..length] == done == [MARKER] + Stuff(encoded[..i])
    {
      StuffNext(encoded, i, done);
      if MustEscape(encoded[i]) {
        Put(wire, length, ESCAPE);
        Put(wire, length + 1, Flip(encoded[i]));
        length := length + 2;
      } else {
        Put(wire, length, encoded[i]);
        length := length + 1;
      }
      done := done + StuffByte(encoded[i]);
      i := i + 1;
    }
    assert encoded[..i] == encoded;
    Put(wire, length, MARKER);
    length := length + 1;
  }

  /** `wire[length++] = b`, for a prefix that is written in order. */
  method Put(wire: array<Byte>, length: nat, b: Byte)
    requires length < wire.Length
    modifies wire
    ensures wire[..length + 1] == old(wire[..length]) + [b]
  {
    wire[length] := b;
  }

  /** The raw frame, written field by field. */
  method BuildRaw(table: seq<U32>, frameType: Byte, transferId: Byte, sequence: U32, payload: seq<Byte>)
    returns (raw: seq<Byte>)
    requires Crc32.IsTable(table) && |payload| <= MAX_PAYLOAD
    ensures raw == Raw(Frame(frameType, transferId, 0, sequence, payload))
  {
    hide Crc32.Checksum, Crc32.IsTable;
    raw := [frameType, transferId, 0];
    raw := raw + WriteU32(sequence);
    raw := raw + WriteU16(|payload|);
    raw := raw + payload;
    var crc := Crc32.Compute(table, raw);
    raw := raw + WriteU32(crc);
  }

  lemma {:induction false} StuffStart(bytes: seq<Byte>)
    ensures [MARKER] == [MARKER] + Stuff(bytes[..0])
  {
  }

  /** What one more byte adds, whether it is escaped or not, to the wire bytes written so far. */
  lemma {:induction false} StuffNext(bytes: seq<Byte>, i: nat, done: seq<Byte>)
    requires i < |bytes| && done == [MARKER] + Stuff(bytes[..i])
    ensures done + StuffByte(bytes[i]) == [MARKER] + Stuff(bytes[..i + 1])
    ensures done + StuffByte(bytes[i])
         == if MustEscape(bytes[i]) then done + [ESCAPE] + [Flip(bytes[i])] else done + [bytes[i]]
  {
    hide MustEscape, Flip;
    assert bytes[..i] + [bytes[i]] == bytes[..i + 1];
    StuffAppend(bytes[..i], [bytes[i]]);
    assert [bytes[i]][1..] == [];
    assert Stuff([bytes[i]]) == StuffByte(bytes[i]) + Stuff([]);
  }
}
