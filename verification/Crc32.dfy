/** The 32-bit frame check sequence of appendix C.3 of RFC 1662, as both ends of the link compute it. */
module Crc32 {
  import opened Bytes

  const POLYNOMIAL: U32 := 0xEDB8_8320

  /** One bitwise step of the reflected shift register. */
  function BitStep(r: U32): (s: U32)
  {
    XorBound32(r / 2, POLYNOMIAL);
    if r % 2 == 1 then Xor(r / 2, POLYNOMIAL) else r / 2
  }

  function BitSteps(r: U32, n: nat): (s: U32)
    decreases n, r
  {
    if n == 0 then r else BitStep(BitSteps(r, n - 1))
  }

  /** The definition of the check: the register after one byte, bit by bit. */
  function ByteStep(r: U32, b: Byte): (s: U32)
  {
    XorBound32(r, b);
    BitSteps(Xor(r, b), 8)
  }

  function Register(r: U32, data: seq<Byte>): (s: U32)
    decreases |data|
  {
    if data == [] then r else Register(ByteStep(r, data[0]), data[1..])
  }

  /** The register after `data`, starting from all ones. */
  function Running(data: seq<Byte>): (r: U32)
    decreases |data|
  {
    if data == [] then ALL_ONES else ByteStep(Running(data[..|data| - 1]), data[|data| - 1])
  }

  /** The transmitted check sequence. */
  function Checksum(data: seq<Byte>): (crc: U32)
  {
    ALL_ONES - Running(data)
  }

  // ----- the shift register is linear and loses nothing -----

  lemma {:induction false} BitStepLinear(x: U32, y: U32)
    ensures Xor(x, y) < 0x1_0000_0000 && BitStep(Xor(x, y)) == Xor(BitStep(x), BitStep(y))
  {
    XorBound32(x, y);
    XorDigits(x, y);
    Regroup(x / 2, y / 2, POLYNOMIAL);
  }

  lemma {:induction false} Regroup(u: nat, v: nat, p: nat)
    ensures Xor(Xor(u, v), p) == Xor(Xor(u, p), v) == Xor(u, Xor(v, p))
    ensures Xor(Xor(u, p), Xor(v, p)) == Xor(u, v)
  {
    XorAssociates(u, v, p);
    XorAssociates(u, p, v);
    XorCommutes(p, v);
    XorAssociates(u, p, Xor(v, p));
    XorCommutes(p, Xor(v, p));
    XorCancels(v, p);
  }

  lemma {:induction false} BitStepsLinear(x: U32, y: U32, n: nat)
    ensures Xor(x, y) < 0x1_0000_0000 && BitSteps(Xor(x, y), n) == Xor(BitSteps(x, n), BitSteps(y, n))
    decreases n
  {
    XorBound32(x, y);
    if n != 0 {
      BitStepsLinear(x, y, n - 1);
      BitStepLinear(BitSteps(x, n - 1), BitSteps(y, n - 1));
    }
  }

  /** The top digit of the polynomial tells an odd register from an even one. */
  lemma {:induction false} TopDigit(r: U32)
    ensures ShiftRight(BitStep(r), 31) == r % 2
  {
    Powers();
    ShiftBound(r / 2, 31);
    XorShift(r / 2, POLYNOMIAL, 31);
    assert ShiftRight(POLYNOMIAL, 31) == 1 by {
      TopShift(POLYNOMIAL, 31);
    }
  }

  lemma {:induction false} TopShift(x: nat, n: nat)
    requires Pow2(n) <= x < 2 * Pow2(n)
    ensures ShiftRight(x, n) == 1
    decreases n
  {
    if n != 0 {
      TopShift(x / 2, n - 1);
    }
  }

  lemma {:induction false} BitStepInjective(x: U32, y: U32)
    requires BitStep(x) == BitStep(y)
    ensures x == y
  {
    TopDigit(x);
    TopDigit(y);
    if x % 2 == 1 {
      XorInjective(x / 2, y / 2, POLYNOMIAL);
    }
  }

  lemma {:induction false} BitStepsInjective(x: U32, y: U32, n: nat)
    requires BitSteps(x, n) == BitSteps(y, n)
    ensures x == y
    decreases n
  {
    if n != 0 {
      BitStepInjective(BitSteps(x, n - 1), BitSteps(y, n - 1));
      BitStepsInjective(x, y, n - 1);
    }
  }

  lemma {:induction false} BitStepsAdd(r: U32, m: nat, n: nat)
    ensures BitSteps(BitSteps(r, m), n) == BitSteps(r, m + n)
    decreases n
  {
    if n != 0 {
      BitStepsAdd(r, m, n - 1);
    }
  }

  /** Shifting out zeros never touches the polynomial. */
  lemma {:induction false} ShiftOutZeros(h: nat, n: nat)
    requires h * Pow2(n) < 0x1_0000_0000
    ensures h < 0x1_0000_0000 && BitSteps(h * Pow2(n), n) == h
    decreases n
  {
    if n == 0 {
    } else {
      assert h * Pow2(n) == (2 * h) * Pow2(n - 1);
      ShiftOutZeros(2 * h, n - 1);
    }
  }

  // ----- the table-driven update -----

  /** A table step equals eight bitwise steps. */
  lemma {:induction false} TableStepIsByteStep(r: U32, b: Byte)
    ensures Xor(BitSteps(Xor(r, b) % 0x100, 8), r / 0x100) == ByteStep(r, b)
  {
    XorBound32(r, b);
    Powers();
    var x := Xor(r, b);
    JoinSteps(x, x % 0x100, x / 0x100, 8, x / 0x100 * 0x100);
    DropByte(r, b);
  }

  /** After `n` steps the digits above the lowest `n` have only moved down. */
  lemma {:induction false} JoinSteps(x: U32, low: nat, high: nat, n: nat, h: nat)
    requires low < Pow2(n) && h == high * Pow2(n) && x == low + h
    ensures Xor(BitSteps(low, n), high) == BitSteps(x, n)
  {
    XorDisjoint(low, high, n);
    ShiftOutZeros(high, n);
    BitStepsLinear(low, h, n);
  }

  lemma {:induction false} DropByte(r: U32, b: Byte)
    ensures Xor(r, b) / 0x100 == r / 0x100
  {
    ShiftByte(r);
    ShiftByte(b);
    ShiftByte(Xor(r, b));
    XorShift(r, b, 8);
    XorCommutes(r / 0x100, 0);
  }

  lemma {:induction false} ShiftByte(x: nat)
    ensures ShiftRight(x, 8) == x / 0x100
  {
    assert ShiftRight(x, 8) == ShiftRight(x / 0x10, 4);
  }

  predicate IsTable(table: seq<U32>)
  {
    |table| == 0x100 && forall i: nat :: i < 0x100 ==> table[i] == BitSteps(i, 8)
  }

  method TableEntry(value: Byte) returns (entry: U32)
    ensures entry == BitSteps(value, 8)
  {
    entry := value;
    var bit := 0;
    while bit < 8
      invariant 0 <= bit <= 8
      invariant entry == BitSteps(value, bit)
    {
      XorBound32(entry / 2, POLYNOMIAL);
      entry := if entry % 2 == 1 then Xor(entry / 2, POLYNOMIAL) else entry / 2;
      bit := bit + 1;
    }
  }

  /** The 256 precomputed entries, filled in on first use. */
  method BuildTable() returns (table: array<U32>)
    ensures fresh(table) && IsTable(table[..])
  {
    table := new U32[0x100];
    var value: nat := 0;
    while value < 0x100
      invariant value <= 0x100
      invariant forall i: nat :: i < value ==> table[i] == BitSteps(i, 8)
    {
      table[value] := TableEntry(value);
      value := value + 1;
    }
  }

  /** The table-driven update computes the bitwise definition. */
  method Update(table: seq<U32>, crc: U32, data: seq<Byte>) returns (result: U32)
    requires IsTable(table)
    ensures result == Register(crc, data)
  {
    result := crc;
    var i := 0;
    while i < |data|
      invariant 0 <= i <= |data|
      invariant Register(result, data[i..]) == Register(crc, data)
    {
      TableStepIsByteStep(result, data[i]);
      assert data[i..][1..] == data[i + 1..];
      var index := Xor(result, data[i]) % 0x100;
      result := Xor(table[index], result / 0x100);
      i := i + 1;
    }
  }

  // ----- streaming -----

  /** Updating chunk by chunk equals one pass over the concatenation. */
  lemma {:induction false} RegisterAppend(r: U32, a: seq<Byte>, b: seq<Byte>)
    ensures Register(r, a + b) == Register(Register(r, a), b)
    decreases |a|
  {
    if a == [] {
      assert a + b == b;
    } else {
      assert (a + b)[1..] == a[1..] + b;
      RegisterAppend(ByteStep(r, a[0]), a[1..], b);
    }
  }

  lemma {:induction false} RunningIsRegister(data: seq<Byte>)
    ensures Running(data) == Register(ALL_ONES, data)
    decreases |data|
  {
    hide ByteStep;
    if data != [] {
      var n := |data| - 1;
      RunningIsRegister(data[..n]);
      assert data[..n] + [data[n]] == data;
      RegisterAppend(ALL_ONES, data[..n], [data[n]]);
      RegisterOne(Running(data[..n]), data[n]);
    }
  }

  lemma {:induction false} RegisterOne(r: U32, b: Byte)
    ensures Register(r, [b]) == ByteStep(r, b)
  {
    hide ByteStep;
    assert Register(ByteStep(r, b), [b][1..]) == ByteStep(r, b);
  }

  lemma {:induction false} RunningAppend(a: seq<Byte>, b: seq<Byte>)
    ensures Running(a + b) == Register(Running(a), b)
  {
    hide Register, Running;
    RunningIsRegister(a + b);
    RunningIsRegister(a);
    RegisterAppend(ALL_ONES, a, b);
  }

  /** The check sequence of a whole block. */
  method Compute(table: seq<U32>, data: seq<Byte>) returns (crc: U32)
    requires IsTable(table)
    ensures crc == Checksum(data)
  {
    hide Register, Running, IsTable;
    RunningIsRegister(data);
    var register := Update(table, ALL_ONES, data);
    crc := ALL_ONES - register;
  }

  // ----- burst detection -----

  lemma {:induction false} RegisterInjective(r: U32, s: U32, data: seq<Byte>)
    requires Register(r, data) == Register(s, data)
    ensures r == s
    decreases |data|
  {
    if data != [] {
      var b := data[0];
      RegisterInjective(ByteStep(r, b), ByteStep(s, b), data[1..]);
      XorBound32(r, b);
      XorBound32(s, b);
      BitStepsInjective(Xor(r, b), Xor(s, b), 8);
      XorInjective(r, s, b);
    }
  }

  /** The number whose base-256 digits, lowest first, are the bytes. */
  function LittleEndian(bytes: seq<Byte>): (w: nat)
    ensures w < Pow2(8 * |bytes|)
  {
    if bytes == [] then 0
    else
      var n := |bytes| - 1;
      var low := LittleEndian(bytes[..n]);
      AddByte(low, bytes[n], 8 * n);
      low + bytes[n] * Pow2(8 * n)
  }

  lemma {:induction false} AddByte(low: nat, high: Byte, n: nat)
    requires low < Pow2(n)
    ensures low + high * Pow2(n) < Pow2(n + 8)
  {
    assert Pow2(n + 2) == 4 * Pow2(n);
    assert Pow2(n + 4) == 4 * Pow2(n + 2);
    assert Pow2(n + 6) == 4 * Pow2(n + 4);
    assert Pow2(n + 8) == 4 * Pow2(n + 6);
    assert high * Pow2(n) <= 0xFF * Pow2(n);
  }

  /** Up to four bytes enter the register as one little-endian word. */
  lemma {:induction false} WordSteps(r: U32, bytes: seq<Byte>)
    requires |bytes| <= 4
    ensures Xor(r, LittleEndian(bytes)) < 0x1_0000_0000
    ensures Register(r, bytes) == BitSteps(Xor(r, LittleEndian(bytes)), 8 * |bytes|)
  {
    hide Xor, ByteStep;
    WordBound(bytes);
    XorBound32(r, LittleEndian(bytes));
    if bytes != [] {
      var n := |bytes| - 1;
      var rest, last := bytes[..n], bytes[n];
      WordSteps(r, rest);
      assert rest + [last] == bytes;
      RegisterAppend(r, rest, [last]);
      Lift(r, LittleEndian(rest), last, 8 * n);
      assert Register(ByteStep(Register(r, rest), last), []) == ByteStep(Register(r, rest), last);
    } else {
      XorZero(r);
    }
  }

  lemma {:induction false} XorZero(r: nat)
    ensures Xor(r, 0) == r
  {
  }

  lemma {:induction false} WordBound(bytes: seq<Byte>)
    requires |bytes| <= 4
    ensures LittleEndian(bytes) < 0x1_0000_0000
  {
    Powers();
  }

  lemma {:induction false} WordStep(r: U32, bytes: seq<Byte>)
    requires |bytes| == 4
    ensures Xor(r, ReadU32(bytes)) < 0x1_0000_0000
    ensures Register(r, bytes) == BitSteps(Xor(r, ReadU32(bytes)), 32)
  {
    ReadIsLittleEndian(bytes);
    WordSteps(r, bytes);
  }

  lemma {:induction false} ReadIsLittleEndian(bytes: seq<Byte>)
    requires |bytes| == 4
    ensures ReadU32(bytes) == LittleEndian(bytes)
  {
    Powers();
    assert bytes[..3][..2] == bytes[..2];
    assert bytes[..2][..1] == bytes[..1];
    assert LittleEndian(bytes[..1]) == bytes[0];
    assert LittleEndian(bytes[..2]) == LittleEndian(bytes[..1]) + bytes[1] * Pow2(8);
    assert LittleEndian(bytes[..3]) == LittleEndian(bytes[..2]) + bytes[2] * Pow2(16);
  }

  /** Bytes already folded into the low digits, plus one that enters after them, are one longer word. */
  lemma {:induction false} Lift(r: U32, low: nat, high: Byte, n: nat)
    requires low < Pow2(n) && high * Pow2(n) < 0x1_0000_0000
    requires Xor(r, low) < 0x1_0000_0000 && Xor(r, low + high * Pow2(n)) < 0x1_0000_0000
    ensures ByteStep(BitSteps(Xor(r, low), n), high) == BitSteps(Xor(r, low + high * Pow2(n)), n + 8)
  {
    hide Xor, BitSteps, ByteStep;
    var h := high * Pow2(n);
    XorDisjoint(low, high, n);
    XorAssociates(r, low, h);
    LateByte(Xor(r, low), high, n, h);
  }

  /** A byte that enters after `n` steps may as well enter now, `n` digits higher. */
  lemma {:induction false} LateByte(x: U32, b: Byte, n: nat, h: nat)
    requires h == b * Pow2(n) && h < 0x1_0000_0000 && Xor(x, h) < 0x1_0000_0000
    ensures ByteStep(BitSteps(x, n), b) == BitSteps(Xor(x, h), n + 8)
  {
    ShiftOutZeros(b, n);
    BitStepsLinear(x, h, n);
    BitStepsAdd(Xor(x, h), n, 8);
  }

  /** What the register holds after any block followed by its own check sequence. */
  const RESIDUE: U32 := BitSteps(ALL_ONES, 32)

  /** A block passes its check exactly when the register, run over block and check bytes, ends in the residue. */
  lemma {:induction false} ChecksumIffResidue(data: seq<Byte>, check: seq<Byte>)
    requires |check| == 4
    ensures ReadU32(check) == Checksum(data) <==> Running(data + check) == RESIDUE
  {
    hide Running, Register, BitSteps;
    var r, w := Running(data), ReadU32(check);
    RunningAppend(data, check);
    WordStep(r, check);
    ComplementIffResidue(r, w, 32);
  }

  lemma {:induction false} ComplementIffResidue(r: U32, w: U32, n: nat)
    requires Xor(r, w) < 0x1_0000_0000
    ensures w == ALL_ONES - r <==> BitSteps(Xor(r, w), n) == BitSteps(ALL_ONES, n)
  {
    Powers();
    XorComplement(r, 32);
    if BitSteps(Xor(r, w), n) == BitSteps(ALL_ONES, n) {
      BitStepsInjective(Xor(r, w), ALL_ONES, n);
      XorCancels(w, r);
    }
    XorCommutes(r, w);
    XorCommutes(r, ALL_ONES);
    XorCancels(ALL_ONES, r);
  }

  /** Altering bytes inside one window of four changes what the register ends with. */
  lemma {:induction false} BurstChangesRegister(prefix: seq<Byte>, w: seq<Byte>, w': seq<Byte>, suffix: seq<Byte>)
    requires |w| == |w'| == 4 && w != w'
    ensures Running(prefix + w + suffix) != Running(prefix + w' + suffix)
  {
    hide Running, Register;
    var s := Running(prefix);
    RunningAppend(prefix + w, suffix);
    RunningAppend(prefix + w', suffix);
    RunningAppend(prefix, w);
    RunningAppend(prefix, w');
    if Register(Register(s, w), suffix) == Register(Register(s, w'), suffix) {
      RegisterInjective(Register(s, w), Register(s, w'), suffix);
      WordStep(s, w);
      WordStep(s, w');
      BitStepsInjective(Xor(s, ReadU32(w)), Xor(s, ReadU32(w')), 32);
      XorCommutes(s, ReadU32(w));
      XorCommutes(s, ReadU32(w'));
      XorInjective(ReadU32(w), ReadU32(w'), s);
      ReadU32Injective(w, w');
    }
  }
}
