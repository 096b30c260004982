/** Bytes, machine words and the exclusive-or, shared by every other module.

  Machine words are natural numbers below a power of two, and the bitwise operations are written out on binary
  digits: a right shift is a division, a mask of low bits is a remainder, and a complement is a subtraction.
 */
module Bytes {
  type Byte = b: nat | b < 0x100
  type U32 = w: nat | w < 0x1_0000_0000

  const ALL_ONES: U32 := 0xFFFF_FFFF

  /** The sum of two 32-bit words, which wraps around. */
  function Add32(a: U32, b: U32): (sum: U32)
  {
    if a + b <= ALL_ONES then a + b else a + b - 0x1_0000_0000
  }

  function Pow2(n: nat): (p: nat)
    ensures p > 0
  {
    if n == 0 then 1 else 2 * Pow2(n - 1)
  }

  lemma {:induction false} Powers()
    ensures Pow2(8) == 0x100 && Pow2(16) == 0x1_0000 && Pow2(24) == 0x100_0000
    ensures Pow2(31) == 0x8000_0000 && Pow2(32) == 0x1_0000_0000
  {
    assert Pow2(4) == 0x10;
    assert Pow2(8) == 0x100;
    assert Pow2(12) == 0x1000;
    assert Pow2(16) == 0x1_0000;
    assert Pow2(20) == 0x10_0000;
    assert Pow2(24) == 0x100_0000;
    assert Pow2(28) == 0x1000_0000;
  }

  /** The number whose binary digits are the exclusive-or of the digits of `a` and `b`. */
  function Xor(a: nat, b: nat): (x: nat)
    decreases a + b
  {
    if a == 0 then b else if b == 0 then a else (if a % 2 == b % 2 then 0 else 1) + 2 * Xor(a / 2, b / 2)
  }

  /** The right shift `x >> n`. */
  function ShiftRight(x: nat, n: nat): (y: nat)
    decreases n
  {
    if n == 0 then x else ShiftRight(x / 2, n - 1)
  }

  // ----- laws of the exclusive-or -----

  lemma {:induction false} XorDigits(a: nat, b: nat)
    ensures Xor(a, b) % 2 == if a % 2 == b % 2 then 0 else 1
    ensures Xor(a, b) / 2 == Xor(a / 2, b / 2)
  {
    if a != 0 && b != 0 {
      var digit, high := if a % 2 == b % 2 then 0 else 1, Xor(a / 2, b / 2);
      assert Xor(a, b) == digit + 2 * high;
    }
  }

  lemma {:induction false} XorCommutes(a: nat, b: nat)
    ensures Xor(a, b) == Xor(b, a)
    decreases a + b
  {
    if a != 0 && b != 0 {
      XorCommutes(a / 2, b / 2);
    }
  }

  lemma {:induction false} XorAssociates(a: nat, b: nat, c: nat)
    ensures Xor(Xor(a, b), c) == Xor(a, Xor(b, c))
    decreases a + b + c
  {
    if a != 0 && b != 0 && c != 0 {
      XorAssociates(a / 2, b / 2, c / 2);
      var ab, bc := Xor(a, b), Xor(b, c);
      XorDigits(a, b);
      XorDigits(b, c);
      XorDigits(ab, c);
      XorDigits(a, bc);
      SameDigits(Xor(ab, c), Xor(a, bc));
    }
  }

  lemma {:induction false} SameDigits(x: nat, y: nat)
    requires x % 2 == y % 2 && x / 2 == y / 2
    ensures x == y
  {
  }

  lemma {:induction false} XorSelf(a: nat)
    ensures Xor(a, a) == 0
  {
    if a != 0 {
      XorSelf(a / 2);
    }
  }

  lemma {:induction false} XorCancels(a: nat, b: nat)
    ensures Xor(Xor(a, b), b) == a
  {
    XorAssociates(a, b, b);
    XorSelf(b);
  }

  lemma {:induction false} XorInjective(a: nat, a': nat, b: nat)
    requires Xor(a, b) == Xor(a', b)
    ensures a == a'
  {
    XorCancels(a, b);
    XorCancels(a', b);
  }

  lemma {:induction false} XorBound(a: nat, b: nat, n: nat)
    requires a < Pow2(n) && b < Pow2(n)
    ensures Xor(a, b) < Pow2(n)
    decreases n
  {
    if n != 0 {
      XorBound(a / 2, b / 2, n - 1);
      XorDigits(a, b);
    }
  }

  lemma {:induction false} XorBound32(a: U32, b: U32)
    ensures Xor(a, b) < 0x1_0000_0000
  {
    Powers();
    XorBound(a, b, 32);
  }

  lemma {:induction false} XorBound8(a: Byte, b: Byte)
    ensures Xor(a, b) < 0x100
  {
    Powers();
    XorBound(a, b, 8);
  }

  lemma {:induction false} XorComplement(r: nat, n: nat)
    requires r < Pow2(n)
    ensures Xor(r, Pow2(n) - 1) == Pow2(n) - 1 - r
    decreases n
  {
    if n != 0 {
      XorComplement(r / 2, n - 1);
      XorDigits(r, Pow2(n) - 1);
    }
  }

  lemma {:induction false} XorShift(a: nat, b: nat, n: nat)
    ensures ShiftRight(Xor(a, b), n) == Xor(ShiftRight(a, n), ShiftRight(b, n))
    decreases n
  {
    if n != 0 {
      XorDigits(a, b);
      XorShift(a / 2, b / 2, n - 1);
    }
  }

  lemma {:induction false} ShiftBound(x: nat, n: nat)
    requires x < Pow2(n)
    ensures ShiftRight(x, n) == 0
    decreases n
  {
    if n != 0 {
      ShiftBound(x / 2, n - 1);
    }
  }

  lemma {:induction false} XorZero(b: nat)
    ensures Xor(0, b) == b
  {
  }

  /** Adding to the zero digits below `n` sets them: no digit carries. */
  lemma {:induction false} XorDisjoint(low: nat, high: nat, n: nat)
    requires low < Pow2(n)
    ensures Xor(low, high * Pow2(n)) == low + high * Pow2(n)
    decreases n
  {
    hide Xor;
    if n == 0 {
      XorZero(high);
    } else {
      var p := Pow2(n - 1);
      var h := high * p;
      assert high * (2 * p) == 2 * h;
      XorDisjoint(low / 2, high, n - 1);
      XorDigits(low, 2 * h);
      SameDigits(Xor(low, 2 * h), low + 2 * h);
    }
  }

  // ----- little-endian words -----

  /** `write_u16_le`. */
  function WriteU16(w: nat): (bytes: seq<Byte>)
    requires w < 0x1_0000
    ensures |bytes| == 2
  {
    [w % 0x100, w / 0x100]
  }

  /** `read_u16_le`. */
  function ReadU16(bytes: seq<Byte>): (w: nat)
    requires |bytes| == 2
    ensures w < 0x1_0000
  {
    var b0: nat, b1: nat := bytes[0], bytes[1];
    b0 + 0x100 * b1
  }

  /** `write_u32_le`. */
  function WriteU32(w: U32): (bytes: seq<Byte>)
    ensures |bytes| == 4
  {
    [w % 0x100, w / 0x100 % 0x100, w / 0x1_0000 % 0x100, w / 0x100_0000]
  }

  /** `read_u32_le`. */
  function ReadU32(bytes: seq<Byte>): (w: U32)
    requires |bytes| == 4
  {
    var b0: nat, b1: nat, b2: nat, b3: nat := bytes[0], bytes[1], bytes[2], bytes[3];
    b0 + 0x100 * b1 + 0x1_0000 * b2 + 0x100_0000 * b3
  }

  lemma {:induction false} ReadWriteU32(w: U32)
    ensures ReadU32(WriteU32(w)) == w
  {
    assert w / 0x1_0000 == w / 0x100 / 0x100;
    assert w / 0x100_0000 == w / 0x1_0000 / 0x100;
  }

  lemma {:induction false} WriteReadU16(bytes: seq<Byte>)
    requires |bytes| == 2
    ensures WriteU16(ReadU16(bytes)) == bytes
  {
  }

  lemma {:induction false} WriteReadU32(bytes: seq<Byte>)
    requires |bytes| == 4
    ensures WriteU32(ReadU32(bytes)) == bytes
  {
    ReadWriteU32(ReadU32(bytes));
    ReadU32Injective(WriteU32(ReadU32(bytes)), bytes);
  }

  lemma {:induction false} ReadU32Injective(a: seq<Byte>, b: seq<Byte>)
    requires |a| == |b| == 4 && ReadU32(a) == ReadU32(b)
    ensures a == b
  {
    FirstDigit(a[0], a[1] + 0x100 * (a[2] + 0x100 * (a[3] as nat) as nat),
               b[0], b[1] + 0x100 * (b[2] + 0x100 * (b[3] as nat) as nat));
    FirstDigit(a[1], a[2] + 0x100 * (a[3] as nat), b[1], b[2] + 0x100 * (b[3] as nat));
    FirstDigit(a[2], a[3], b[2], b[3]);
  }

  lemma {:induction false} FirstDigit(a: Byte, high: nat, b: Byte, high': nat)
    requires a + 0x100 * high == b + 0x100 * high'
    ensures a == b && high == high'
  {
  }
}
