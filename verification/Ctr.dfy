/** Counter-mode encryption: the portable loop of src/advanced/secure_channel_crypto.cpp, lines 672-716, and
    the pipelined loop of lines 471-554, over any block function. */
module Ctr {
  import opened Machine

  // ------------------------------------------------------------ what both loops compute

  /** nonce[12] || be32(counter), the counter cut down from 64 bits. */
  function CounterBlock(nonce: seq<byte>, counter: nat): Block
    requires |nonce| == 12
  {
    nonce + BigEndian32(counter % 0x1_0000_0000)
  }

  /** Byte i of the keystream that starts at `counter`. */
  function KeyByte(encrypt: Block -> Block, nonce: seq<byte>, counter: nat, i: nat): byte
    requires |nonce| == 12
  {
    encrypt(CounterBlock(nonce, counter + i / 16))[i % 16]
  }

  function Crypt(encrypt: Block -> Block, nonce: seq<byte>, counter: nat, input: seq<byte>): (output: seq<byte>)
    requires |nonce| == 12
    ensures |output| == |input|
  {
    seq(|input|, i requires 0 <= i < |input| => input[i] ^ KeyByte(encrypt, nonce, counter, i))
  }

  /** Encrypting twice with the same nonce and counter gives the input back. */
  lemma CryptUndoesItself(encrypt: Block -> Block, nonce: seq<byte>, counter: nat, input: seq<byte>)
    requires |nonce| == 12
    ensures Crypt(encrypt, nonce, counter, Crypt(encrypt, nonce, counter, input)) == input
  {
    forall i | 0 <= i < |input|
      ensures Crypt(encrypt, nonce, counter, Crypt(encrypt, nonce, counter, input))[i] == input[i]
    {
      XorTwice(input[i], KeyByte(encrypt, nonce, counter, i));
    }
  }

  /** A message may be cut at any block boundary: the second part continues the counter. */
  lemma CryptConcat(encrypt: Block -> Block, nonce: seq<byte>, counter: nat, a: seq<byte>, b: seq<byte>)
    requires |nonce| == 12 && |a| % 16 == 0
    ensures Crypt(encrypt, nonce, counter, a + b)
            == Crypt(encrypt, nonce, counter, a) + Crypt(encrypt, nonce, counter + |a| / 16, b)
  {
    hide KeyByte;
    var n := |a| / 16;
    var whole := Crypt(encrypt, nonce, counter, a + b);
    var second := Crypt(encrypt, nonce, counter + n, b);
    forall k | |a| <= k < |whole|
      ensures whole[k] == second[k - |a|]
    {
      KeyByteLater(encrypt, nonce, counter, n, k - |a|);
    }
    assert whole[..|a|] == Crypt(encrypt, nonce, counter, a);
    assert whole[|a|..] == second;
  }

  lemma KeyByteLater(encrypt: Block -> Block, nonce: seq<byte>, counter: nat, n: nat, i: nat)
    requires |nonce| == 12
    ensures KeyByte(encrypt, nonce, counter, 16 * n + i) == KeyByte(encrypt, nonce, counter + n, i)
  {
    DivModUnique(16 * n + i, 16, n + i / 16, i % 16);
  }

  /** Only the low 32 bits of the counter reach the block, so a wrap of the 64-bit counter is invisible. */
  lemma CounterWrap(nonce: seq<byte>, counter: nat)
    requires |nonce| == 12
    ensures CounterBlock(nonce, counter % TWO_64) == CounterBlock(nonce, counter)
  {
    var q := counter / TWO_64;
    var r := counter % TWO_64;
    DivModUnique(counter, 0x1_0000_0000, q * 0x1_0000_0000 + r / 0x1_0000_0000, r % 0x1_0000_0000);
  }

  /** The 64-bit counter n blocks on. */
  function Later(counter: nat, n: nat): (c: uint64)
  {
    (counter + n) % TWO_64
  }

  lemma LaterZero(counter: uint64)
    ensures Later(counter, 0) == counter
  {
  }

  lemma LaterAdd(counter: nat, j: nat)
    ensures forall n: nat :: Later(Later(counter, j), n) == Later(counter, j + n)
  {
    forall n: nat
      ensures Later(Later(counter, j), n) == Later(counter, j + n)
    {
      var q, r := (counter + j) / TWO_64, (counter + j) % TWO_64;
      DivModUnique(counter + (j + n), TWO_64, q + (r + n) / TWO_64, (r + n) % TWO_64);
    }
  }

  // ------------------------------------------------------------ one block

  /** The output buffer holds the first n bytes of the result and is otherwise as it was. */
  ghost predicate Written(output: seq<byte>, start: seq<byte>, result: seq<byte>, n: nat)
    requires n <= |result| <= |output| == |start|
  {
    output[..n] == result[..n] && output[n..] == start[n..]
  }

  /** Byte i of block j of the result, from the truncated running counter. */
  lemma ResultByte(encrypt: Block -> Block, nonce: seq<byte>, initialCounter: nat, counter: nat, input: seq<byte>,
                   j: nat, i: nat)
    requires |nonce| == 12 && i < 16 && 16 * j + i < |input| && counter == Later(initialCounter, j)
    ensures Crypt(encrypt, nonce, initialCounter, input)[16 * j + i]
            == input[16 * j + i] ^ encrypt(CounterBlock(nonce, counter))[i]
  {
    CounterWrap(nonce, initialCounter + j);
    DivModUnique(16 * j + i, 16, j, i);
  }

  /** XORs the first blockLen bytes of the block for the current counter into place; this is block j. */
  method CryptBlock(encrypt: Block -> Block, nonce: seq<byte>, counter: uint64, input: seq<byte>,
                    output: array<byte>, j: nat, blockLen: nat, ghost initialCounter: nat, ghost start: seq<byte>)
    requires |nonce| == 12 && |input| <= output.Length == |start|
    requires blockLen <= 16 && 16 * j + blockLen <= |input|
    requires counter == Later(initialCounter, j)
    requires Written(output[..], start, Crypt(encrypt, nonce, initialCounter, input), 16 * j)
    modifies output
    ensures Written(output[..], start, Crypt(encrypt, nonce, initialCounter, input), 16 * j + blockLen)
  {
    hide Crypt, KeyByte, CounterBlock;
    ghost var result := Crypt(encrypt, nonce, initialCounter, input);
    var keystream := encrypt(CounterBlock(nonce, counter));
    var offset := 16 * j;
    for i := 0 to blockLen
      invariant Written(output[..], start, result, offset + i)
    {
      ResultByte(encrypt, nonce, initialCounter, counter, input, j, i);
      WriteNext(output[..], start, result, offset + i);
      output[offset + i] := input[offset + i] ^ keystream[i];
    }
  }

  lemma WriteNext(output: seq<byte>, start: seq<byte>, result: seq<byte>, n: nat)
    requires n < |result| <= |output| == |start| && Written(output, start, result, n)
    ensures Written(output[n := result[n]], start, result, n + 1)
  {
    var next := output[n := result[n]];
    assert next[..n + 1] == output[..n] + [result[n]] == result[..n + 1];
    assert next[n + 1..] == output[n..][1..] == start[n + 1..];
  }

  // ------------------------------------------------------------ the two loops

  /** aes256_ctr, software path: one block per turn. */
  method Aes256Ctr(encrypt: Block -> Block, nonce: seq<byte>, initialCounter: uint64,
                   input: seq<byte>, output: array<byte>)
    requires |nonce| == 12 && |input| <= output.Length
    modifies output
    ensures output[..|input|] == Crypt(encrypt, nonce, initialCounter, input)
    ensures output[|input|..] == old(output[|input|..])
  {
    hide Crypt, KeyByte, CounterBlock, Later;
    LaterZero(initialCounter);
    ghost var start := output[..];
    ghost var j := 0;
    var offset, counter := 0, initialCounter;
    while offset < |input|
      invariant 0 <= offset <= |input| && offset == Min(16 * j, |input|)
      invariant counter == Later(initialCounter, j)
      invariant Written(output[..], start, Crypt(encrypt, nonce, initialCounter, input), offset)
    {
      LaterAdd(initialCounter, j);
      var blockLen := Min(|input| - offset, 16);
      CryptBlock(encrypt, nonce, counter, input, output, offset / 16, blockLen, initialCounter, start);
      offset := offset + blockLen;
      counter := Later(counter, 1);
      j := j + 1;
    }
  }

  /** aes256_ctr_hw: four blocks per turn, then single blocks, then the tail. */
  method Aes256CtrHw(encrypt: Block -> Block, nonce: seq<byte>, initialCounter: uint64,
                     input: seq<byte>, output: array<byte>)
    requires |nonce| == 12 && |input| <= output.Length
    modifies output
    ensures output[..|input|] == Crypt(encrypt, nonce, initialCounter, input)
    ensures output[|input|..] == old(output[|input|..])
  {
    hide Crypt, KeyByte, CounterBlock, Later;
    LaterZero(initialCounter);
    ghost var start := output[..];
    ghost var result := Crypt(encrypt, nonce, initialCounter, input);
    var j, ctr := 0, initialCounter; // offset == 16 * j
    while 16 * j + 64 <= |input|
      invariant 16 * j <= |input| && ctr == Later(initialCounter, j)
      invariant Written(output[..], start, result, 16 * j)
    {
      LaterAdd(initialCounter, j);
      CryptBlock(encrypt, nonce, ctr, input, output, j, 16, initialCounter, start);
      var c1, c2, c3 := Later(ctr, 1), Later(ctr, 2), Later(ctr, 3);
      CryptBlock(encrypt, nonce, c1, input, output, j + 1, 16, initialCounter, start);
      CryptBlock(encrypt, nonce, c2, input, output, j + 2, 16, initialCounter, start);
      CryptBlock(encrypt, nonce, c3, input, output, j + 3, 16, initialCounter, start);
      ctr := Later(ctr, 4);
      j := j + 4;
    }
    while 16 * j + 16 <= |input|
      invariant 16 * j <= |input| && ctr == Later(initialCounter, j)
      invariant Written(output[..], start, result, 16 * j)
    {
      LaterAdd(initialCounter, j);
      CryptBlock(encrypt, nonce, ctr, input, output, j, 16, initialCounter, start);
      ctr := Later(ctr, 1);
      j := j + 1;
    }
    if 16 * j < |input| {
      CryptBlock(encrypt, nonce, ctr, input, output, j, |input| - 16 * j, initialCounter, start);
    }
  }
}
