/** Consistent overhead byte stuffing: the two encoders and the decoder of the framed link.

  `Encode` and `Decode` say which bytes the loops must produce; the methods are the loops, with each program's own
  bound checks against the capacity of the output buffer.
 */
module Cobs {
  import opened Bytes
  import opened Wrappers

  const BLOCK: nat := 254

  /** The encoding of `block + x`, where the zero-free bytes of `block` already wait for their code. */
  function EncodeFrom(block: seq<Byte>, x: seq<Byte>): (y: seq<Byte>)
    requires |block| < BLOCK
    ensures |y| >= |block| + |x| + 1
    decreases |x|
  {
    if x == [] then [|block| + 1] + block
    else if x[0] == 0 then [|block| + 1] + block + EncodeFrom([], x[1..])
    else if |block| + 1 == BLOCK then [255] + (block + [x[0]]) + EncodeFrom([], x[1..])
    else EncodeFrom(block + [x[0]], x[1..])
  }

  function Encode(x: seq<Byte>): (y: seq<Byte>)
    ensures |y| >= |x| + 1
  {
    EncodeFrom([], x)
  }

  function Decode(y: seq<Byte>): (x: Option<seq<Byte>>)
    ensures x.Some? ==> |x.value| <= |y|
    decreases |y|
  {
    if y == [] then Some([])
    else if y[0] == 0 || y[0] > |y| then None
    else
      var rest := y[y[0]..];
      var tail := Decode(rest);
      if tail.None? then None
      else Some(y[1..y[0]] + (if y[0] < 255 && rest != [] then [0] else []) + tail.value)
  }

  // ----- the encoding is reversible and free of zeros -----

  lemma {:induction false} RoundTrip(x: seq<Byte>)
    ensures Decode(Encode(x)) == Some(x)
  {
    DecodeEncoded([], x);
    assert [] + x == x;
  }

  lemma {:induction false} DecodeEncoded(block: seq<Byte>, x: seq<Byte>)
    requires |block| < BLOCK
    ensures Decode(EncodeFrom(block, x)) == Some(block + x)
    decreases |x|
  {
    hide Decode;
    if x == [] {
      DecodeEmpty();
      DecodeBlock(|block| + 1, block, []);
      assert [|block| + 1] + block + [] == [|block| + 1] + block;
      assert block + [] + [] == block + x;
    } else if x[0] == 0 {
      DecodeEncoded([], x[1..]);
      DecodeBlock(|block| + 1, block, Encode(x[1..]));
      assert block + [0] + ([] + x[1..]) == block + x;
    } else {
      var longer := block + [x[0]];
      assert longer + x[1..] == block + x;
      if |longer| == BLOCK {
        DecodeEncoded([], x[1..]);
        DecodeBlock(255, longer, Encode(x[1..]));
        assert longer + [] + ([] + x[1..]) == longer + x[1..];
      } else {
        DecodeEncoded(longer, x[1..]);
      }
    }
  }

  lemma {:induction false} DecodeEmpty()
    ensures Decode([]) == Some([])
  {
  }

  lemma {:induction false} DecodeBlock(code: Byte, block: seq<Byte>, rest: seq<Byte>)
    requires code == |block| + 1 && Decode(rest).Some?
    ensures Decode([code] + block + rest)
         == Some(block + (if code < 255 && rest != [] then [0] else []) + Decode(rest).value)
  {
    var y := [code] + block + rest;
    assert |y| == code + |rest| && y[0] == code;
    assert y[1..code] == block;
    assert y[code..] == rest;
  }

  lemma {:induction false} NoZeros(x: seq<Byte>)
    ensures 0 !in Encode(x)
  {
    NoZerosFrom([], x);
  }

  lemma {:induction false} NoZerosFrom(block: seq<Byte>, x: seq<Byte>)
    requires |block| < BLOCK && 0 !in block
    ensures 0 !in EncodeFrom(block, x)
    decreases |x|
  {
    if x == [] {
    } else if x[0] == 0 || |block| + 1 == BLOCK {
      NoZerosFrom([], x[1..]);
    } else {
      NoZerosFrom(block + [x[0]], x[1..]);
    }
  }

  // ----- the length of the encoding -----

  function FirstZero(x: seq<Byte>): (z: nat)
    ensures z <= |x| && 0 !in x[..z] && (z < |x| ==> x[z] == 0)
  {
    if x == [] || x[0] == 0 then 0
    else
      assert x[..1 + FirstZero(x[1..])] == [x[0]] + x[1..][..FirstZero(x[1..])];
      1 + FirstZero(x[1..])
  }

  /** The number of full 254-byte blocks in the zero-free stretches of `x`. */
  function FullBlocks(x: seq<Byte>): (n: nat)
    decreases |x|
  {
    var z := FirstZero(x);
    z / BLOCK + if z == |x| then 0 else FullBlocks(x[z + 1..])
  }

  lemma {:induction false} EncodedLength(x: seq<Byte>)
    ensures |Encode(x)| == |x| + 1 + FullBlocks(x)
  {
    EncodedLengthFrom([], x);
    assert [] + x == x;
  }

  lemma {:induction false} EncodedLengthFrom(block: seq<Byte>, x: seq<Byte>)
    requires |block| < BLOCK && 0 !in block
    ensures |EncodeFrom(block, x)| == |block| + |x| + 1 + FullBlocks(block + x)
    decreases |x|
  {
    if x == [] {
      assert FirstZero(block + x) == |block + x|;
    } else if x[0] == 0 {
      EncodedLengthFrom([], x[1..]);
      BlocksUpToZero(block, x);
      assert [] + x[1..] == x[1..];
    } else {
      var longer := block + [x[0]];
      assert longer + x[1..] == block + x;
      if |longer| == BLOCK {
        EncodedLengthFrom([], x[1..]);
        BlocksAfterFull(longer, x[1..]);
        assert [] + x[1..] == x[1..];
      } else {
        EncodedLengthFrom(longer, x[1..]);
      }
    }
  }

  lemma {:induction false} BlocksUpToZero(block: seq<Byte>, x: seq<Byte>)
    requires |block| < BLOCK && 0 !in block && x != [] && x[0] == 0
    ensures FullBlocks(block + x) == FullBlocks(x[1..])
  {
    FirstZeroAfter(block, x);
    assert (block + x)[|block| + 1..] == x[1..];
  }

  lemma {:induction false} BlocksAfterFull(block: seq<Byte>, x: seq<Byte>)
    requires |block| == BLOCK && 0 !in block
    ensures FullBlocks(block + x) == 1 + FullBlocks(x)
  {
    FirstZeroAfter(block, x);
    var z := FirstZero(x);
    if z < |x| {
      assert (block + x)[BLOCK + z + 1..] == x[z + 1..];
    }
  }

  lemma {:induction false} FirstZeroAfter(block: seq<Byte>, x: seq<Byte>)
    requires 0 !in block
    ensures FirstZero(block + x) == |block| + FirstZero(x)
    decreases |block|
  {
    if block == [] {
      assert block + x == x;
    } else {
      assert (block + x)[1..] == block[1..] + x;
      FirstZeroAfter(block[1..], x);
    }
  }

  /** Full blocks and zeros share the bytes of the input. */
  lemma {:induction false} BlocksFit(x: seq<Byte>)
    ensures BLOCK * FullBlocks(x) + (if 0 in x then 1 else 0) <= |x|
    decreases |x|
  {
    var z := FirstZero(x);
    if z < |x| {
      BlocksFit(x[z + 1..]);
    }
  }

  lemma {:induction false} BlocksWithoutZeros(x: seq<Byte>)
    requires 0 !in x
    ensures FullBlocks(x) == |x| / BLOCK
  {
    assert FirstZero(x) == |x|;
  }

  /** Up to the first zero, and from there on. */
  lemma {:induction false} BlocksInParts(x: seq<Byte>, z: nat)
    requires z < |x| && FirstZero(x) == z
    ensures FullBlocks(x) == z / BLOCK + FullBlocks(x[z + 1..])
  {
  }

  /** A short head that ends in a zero contributes no full block. */
  lemma {:induction false} BlocksAfterHead(head: seq<Byte>, tail: seq<Byte>)
    requires 0 < |head| <= BLOCK && head[|head| - 1] == 0
    ensures FullBlocks(head + tail) == FullBlocks(tail)
    decreases |head|
  {
    hide FullBlocks;
    var z := FirstZero(head);
    assert z < |head|;
    FirstZeroIn(head, tail);
    BlocksInParts(head + tail, z);
    if z + 1 < |head| {
      BlocksAfterHead(head[z + 1..], tail);
      assert (head + tail)[z + 1..] == head[z + 1..] + tail;
    } else {
      assert (head + tail)[z + 1..] == tail;
    }
  }

  lemma {:induction false} FirstZeroIn(head: seq<Byte>, tail: seq<Byte>)
    requires FirstZero(head) < |head|
    ensures FirstZero(head + tail) == FirstZero(head)
    decreases |head|
  {
    if head[0] != 0 {
      assert (head + tail)[1..] == head[1..] + tail;
      FirstZeroIn(head[1..], tail);
    }
  }

  /** A zero-free stretch reaching almost to the end decides the number of full blocks. */
  lemma {:induction false} BlocksOfLongRun(x: seq<Byte>, n: nat)
    requires n <= |x| && 0 !in x[..n] && |x| / BLOCK == n / BLOCK
    ensures FullBlocks(x) == n / BLOCK
  {
    BlocksFit(x);
    FirstZeroAfter(x[..n], x[n..]);
    assert x[..n] + x[n..] == x;
  }

  /** The size given to every buffer of encoded bytes: the input plus one byte for each started 254 bytes. */
  function Budget(n: nat): (size: nat)
  {
    n + (n + 253) / 254
  }

  /** The budget is one byte short for exactly one family: zero-free inputs whose length is a multiple of 254. */
  lemma {:induction false} FitsBudgetIff(x: seq<Byte>)
    ensures |Encode(x)| <= Budget(|x|) <==> !(|x| % BLOCK == 0 && 0 !in x)
  {
    EncodedLength(x);
    BlocksFit(x);
    if 0 !in x {
      BlocksWithoutZeros(x);
    }
  }

  // ----- the loops -----

  /** What is still to be written: `done` is complete and `block` waits for its code. */
  ghost predicate Encoding(input: seq<Byte>, done: seq<Byte>, block: seq<Byte>, rest: seq<Byte>)
    ensures Encoding(input, done, block, rest) ==> |block| < 254
  {
    |block| < BLOCK && Encode(input) == done + EncodeFrom(block, rest)
  }

  lemma {:induction false} EncodedIsLonger(input: seq<Byte>, done: seq<Byte>, block: seq<Byte>, rest: seq<Byte>)
    requires Encoding(input, done, block, rest)
    ensures |Encode(input)| >= |done| + |block| + 1 + |rest|
  {
  }

  lemma {:induction false} EncodingStart(input: seq<Byte>)
    ensures Encoding(input, [], [], input)
  {
    assert [] + Encode(input) == Encode(input);
  }

  lemma {:induction false} EncodingEnd(input: seq<Byte>, done: seq<Byte>, block: seq<Byte>)
    requires Encoding(input, done, block, [])
    ensures Encode(input) == done + [|block| + 1] + block
  {
  }

  lemma {:induction false} EncodeZero(input: seq<Byte>, done: seq<Byte>, block: seq<Byte>, rest: seq<Byte>)
    requires Encoding(input, done, block, rest) && rest != [] && rest[0] == 0
    ensures Encoding(input, done + [|block| + 1] + block, [], rest[1..])
  {
  }

  lemma {:induction false} EncodeNonzero(input: seq<Byte>, done: seq<Byte>, block: seq<Byte>, rest: seq<Byte>)
    requires Encoding(input, done, block, rest) && rest != [] && rest[0] != 0
    ensures |block| + 1 < BLOCK ==> Encoding(input, done, block + [rest[0]], rest[1..])
    ensures |block| + 1 == BLOCK ==>
              && Encoding(input, done + [255] + (block + [rest[0]]), [], rest[1..])
              && |Encode(input)| > |done| + BLOCK + 1
  {
  }

  /** Puts the code in front of the collected block, which completes it. */
  method CloseBlock(output: array<Byte>, codeIndex: nat, code: Byte, ghost done: seq<Byte>, ghost block: seq<Byte>)
    requires code == |block| + 1 && codeIndex + code <= output.Length
    requires output[..codeIndex] == done && output[codeIndex + 1..codeIndex + code] == block
    modifies output
    ensures output[..codeIndex + code] == done + [code] + block
  {
    output[codeIndex] := code;
    assert output[..codeIndex] == done && output[codeIndex + 1..codeIndex + code] == block;
  }

  /** Appends one byte to the collected block. */
  method StoreByte(output: array<Byte>, codeIndex: nat, write: nat, b: Byte, ghost block: seq<Byte>)
    requires codeIndex < write < output.Length && output[codeIndex + 1..write] == block
    modifies output
    ensures output[..codeIndex] == old(output[..codeIndex])
    ensures output[codeIndex + 1..write + 1] == block + [b]
  {
    output[write] := b;
  }

  /** The firmware encoder: one check before each input byte and one at the end; 0 means the output does not fit. */
  method EncodeFirmware(input: seq<Byte>, output: array<Byte>) returns (length: nat)
    modifies output
    ensures length == 0 <==> |Encode(input)| > output.Length
    ensures length != 0 ==> length <= output.Length && output[..length] == Encode(input)
  {
    if output.Length == 0 {
      return 0;
    }
    EncodingStart(input);
    hide Encode, EncodeFrom, Encoding;
    var read, write, codeIndex := 0, 1, 0;
    var code: Byte := 1;
    ghost var done: seq<Byte>, block: seq<Byte>, rest := [], [], input;
    while read < |input|
      invariant 0 <= read <= |input| && code == |block| + 1 && write == codeIndex + code
      invariant codeIndex == |done| <= output.Length && output[..codeIndex] == done
      invariant write <= output.Length || block == []
      invariant write <= output.Length ==> output[codeIndex + 1..write] == block
      invariant input[read..] == rest && Encoding(input, done, block, rest)
    {
      EncodedIsLonger(input, done, block, rest);
      if write >= output.Length {
        return 0;
      }
      if input[read] == 0 {
        EncodeZero(input, done, block, rest);
        CloseBlock(output, codeIndex, code, done, block);
        done, block, rest := done + [code] + block, [], rest[1..];
        code := 1;
        codeIndex, write := write, write + 1;
        read := read + 1;
        continue;
      }
      EncodeNonzero(input, done, block, rest);
      StoreByte(output, codeIndex, write, input[read], block);
      block, rest := block + [input[read]], rest[1..];
      write, read := write + 1, read + 1;
      code := code + 1;
      if code == 255 {
        CloseBlock(output, codeIndex, code, done, block);
        done, block := done + [code] + block, [];
        code := 1;
        codeIndex, write := write, write + 1;
      }
    }
    EncodingEnd(input, done, block);
    if codeIndex >= output.Length {
      return 0;
    }
    CloseBlock(output, codeIndex, code, done, block);
    length := write;
  }

  /** The desktop encoder: separate checks for the code byte and the data byte; -1 means the output does not fit. */
  method EncodeDesktop(input: seq<Byte>, output: array<Byte>) returns (length: int)
    modifies output
    ensures length == -1 <==> |Encode(input)| > output.Length
    ensures length != -1 ==> 0 < length <= output.Length && output[..length] == Encode(input)
  {
    EncodingStart(input);
    hide Encode, EncodeFrom, Encoding;
    var read, write, codeIndex := 0, 1, 0;
    var code: Byte := 1;
    ghost var done: seq<Byte>, block: seq<Byte>, rest := [], [], input;
    while read < |input|
      invariant 0 <= read <= |input| && code == |block| + 1 && write == codeIndex + code
      invariant codeIndex == |done| <= output.Length && output[..codeIndex] == done
      invariant write <= output.Length || block == []
      invariant write <= output.Length ==> output[codeIndex + 1..write] == block
      invariant input[read..] == rest && Encoding(input, done, block, rest)
    {
      EncodedIsLonger(input, done, block, rest);
      if input[read] == 0 {
        EncodeZero(input, done, block, rest);
        if codeIndex >= output.Length || write >= output.Length {
          return -1;
        }
        CloseBlock(output, codeIndex, code, done, block);
        done, block, rest := done + [code] + block, [], rest[1..];
        code := 1;
        codeIndex, write := write, write + 1;
        read := read + 1;
        continue;
      }
      EncodeNonzero(input, done, block, rest);
      if write >= output.Length {
        return -1;
      }
      StoreByte(output, codeIndex, write, input[read], block);
      block, rest := block + [input[read]], rest[1..];
      write, read := write + 1, read + 1;
      code := code + 1;
      if code == 255 {
        if codeIndex >= output.Length || write >= output.Length {
          return -1;
        }
        CloseBlock(output, codeIndex, code, done, block);
        done, block := done + [code] + block, [];
        code := 1;
        codeIndex, write := write, write + 1;
      }
    }
    EncodingEnd(input, done, block);
    if codeIndex >= output.Length {
      return -1;
    }
    CloseBlock(output, codeIndex, code, done, block);
    length := write;
  }

  /** `memcpy` and `Span.CopyTo`. */
  method Copy(source: seq<Byte>, output: array<Byte>, at: nat)
    requires at + |source| <= output.Length
    modifies output
    ensures output[..at + |source|] == old(output[..at]) + source
  {
    forall i | 0 <= i < |source| {
      output[at + i] := source[i];
    }
  }

  /** What is still to be read: the output so far, and the rest decides between success and failure. */
  ghost predicate Decoding(input: seq<Byte>, done: seq<Byte>, rest: seq<Byte>)
  {
    Decode(input) == match Decode(rest) case None => None case Some(x) => Some(done + x)
  }

  lemma {:induction false} DecodingStart(input: seq<Byte>)
    ensures Decoding(input, [], input)
  {
    if Decode(input).Some? {
      assert [] + Decode(input).value == Decode(input).value;
    }
  }

  /** One code byte: the bytes it announces, and the zero it stands for unless the block is full or the last. */
  lemma {:induction false} DecodeStep(input: seq<Byte>, done: seq<Byte>, rest: seq<Byte>) returns (block: seq<Byte>)
    requires Decoding(input, done, rest) && rest != [] && 0 < rest[0] <= |rest|
    ensures block == rest[1..rest[0]] + if rest[0] < 255 && rest[0] < |rest| then [0] else []
    ensures Decoding(input, done + block, rest[rest[0]..])
    ensures Decode(input).Some? ==> |Decode(input).value| >= |done| + |block|
  {
    block := rest[1..rest[0]] + if rest[0] < 255 && rest[0] < |rest| then [0] else [];
    var tail := Decode(rest[rest[0]..]);
    if tail.Some? {
      assert done + (block + tail.value) == (done + block) + tail.value;
    }
  }

  lemma {:induction false} DecodingFails(input: seq<Byte>, done: seq<Byte>, rest: seq<Byte>)
    requires Decoding(input, done, rest) && rest != [] && (rest[0] == 0 || rest[0] > |rest|)
    ensures Decode(input).None?
  {
  }

  lemma {:induction false} DecodingEnd(input: seq<Byte>, done: seq<Byte>)
    requires Decoding(input, done, [])
    ensures Decode(input) == Some(done)
  {
    assert done + [] == done;
  }

  /** The decoder, the same loop in both programs; -1 means malformed input or too small an output. */
  method DecodeInto(input: seq<Byte>, output: array<Byte>) returns (length: int)
    modifies output
    ensures length == -1 <==> Decode(input).None? || |Decode(input).value| > output.Length
    ensures length != -1 ==> 0 <= length <= output.Length && output[..length] == Decode(input).value
  {
    hide Decode, Decoding;
    DecodingStart(input);
    var read, write := 0, 0;
    ghost var done: seq<Byte>, rest := [], input;
    while read < |input|
      invariant 0 <= read <= |input| && 0 <= write <= output.Length
      invariant output[..write] == done && input[read..] == rest
      invariant Decoding(input, done, rest)
    {
      var code := input[read];
      assert rest[0] == code && |rest| == |input| - read;
      read := read + 1;
      if code == 0 {
        DecodingFails(input, done, rest);
        return -1;
      }
      var copy := code - 1;
      if read + copy > |input| {
        DecodingFails(input, done, rest);
        return -1;
      }
      ghost var block := DecodeStep(input, done, rest);
      if write + copy > output.Length {
        return -1;
      }
      assert rest[1..code] == input[read..read + copy];
      Copy(input[read..read + copy], output, write);
      read := read + copy;
      write := write + copy;
      if code < 255 && read < |input| {
        if write >= output.Length {
          return -1;
        }
        output[write] := 0;
        write := write + 1;
      }
      done, rest := done + block, rest[code..];
    }
    DecodingEnd(input, done);
    length := write;
  }
}
