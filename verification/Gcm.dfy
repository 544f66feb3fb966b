/** AES-256-GCM on the portable path: src/advanced/secure_channel_crypto.cpp, lines 930-1014 and 1029-1067,
    over any block function. */
module Gcm {
  import opened Machine
  import opened Gf128
  import Ctr

  // ------------------------------------------------------------ GHASH

  /** Section 6.4 of NIST SP 800-38D, first step: cut into blocks, the last one filled with zeros. */
  function Padded(s: seq<byte>): seq<Block>
    decreases |s|
  {
    if s == [] then []
    else if |s| < 16 then [s + seq(16 - |s|, _ => 0)]
    else [s[..16]] + Padded(s[16..])
  }

  function LengthBlock(aadLen: nat, dataLen: nat): Block {
    BigEndian64(aadLen * 8 % TWO_64) + BigEndian64(dataLen * 8 % TWO_64)
  }

  function Input(aad: seq<byte>, data: seq<byte>): seq<Block> {
    Padded(aad) + Padded(data) + [LengthBlock(|aad|, |data|)]
  }

  /** The loop of GHASH: x := (x + block) * h. */
  function Horner(x: Element, blocks: seq<Block>, h: Element): Element
    decreases |blocks|
  {
    if blocks == [] then x else Horner(Mul(Add(x, Elem(blocks[0])), h), blocks[1..], h)
  }

  function Ghash(h: Element, aad: seq<byte>, data: seq<byte>): Element {
    Horner(Zero(), Input(aad, data), h)
  }

  function Power(h: Element, n: nat): Element {
    if n == 0 then One() else Mul(h, Power(h, n - 1))
  }

  /** X1 h^m + X2 h^(m-1) + ... + Xm h, as section 6.4 of NIST SP 800-38D writes it. */
  function PowerSum(blocks: seq<Block>, h: Element): Element {
    if blocks == [] then Zero() else Add(Mul(Elem(blocks[0]), Power(h, |blocks|)), PowerSum(blocks[1..], h))
  }

  lemma {:induction false} HornerIsPowerSum(x: Element, blocks: seq<Block>, h: Element)
    ensures Horner(x, blocks, h) == Add(Mul(x, Power(h, |blocks|)), PowerSum(blocks, h))
    decreases |blocks|
  {
    if blocks == [] {
      ResidueOfSmall(x);
      assert x + [] == x;
      AddNothing(x);
    } else {
      var b, rest := Elem(blocks[0]), blocks[1..];
      var p, s := Power(h, |rest|), PowerSum(rest, h);
      HornerIsPowerSum(Mul(Add(x, b), h), rest, h);
      hide Mul, Add, Elem;
      MulAssociative(Add(x, b), h, p);
      MulLinear(Mul(h, p), x, b);
      AddAssociative(Mul(x, Mul(h, p)), Mul(b, Mul(h, p)), s);
    }
  }

  /** GHASH is the polynomial of its blocks, evaluated at h. */
  lemma GhashIsPowerSum(h: Element, aad: seq<byte>, data: seq<byte>)
    ensures Ghash(h, aad, data) == PowerSum(Input(aad, data), h)
  {
    var blocks := Input(aad, data);
    HornerIsPowerSum(Zero(), blocks, h);
    hide Mul, Add;
    TimesZero(Power(h, |blocks|));
    MulComm(Zero(), Power(h, |blocks|));
    ZeroTimes(Power(h, |blocks|));
    AddNothing(PowerSum(blocks, h));
  }

  lemma ZeroTimes(e: Element)
    ensures Mul(e, Zero()) == Zero()
  {
    TimesZero(e);
  }

  lemma {:induction false} HornerConcat(x: Element, a: seq<Block>, b: seq<Block>, h: Element)
    ensures Horner(x, a + b, h) == Horner(Horner(x, a, h), b, h)
    decreases |a|
  {
    if a == [] {
      assert a + b == b;
    } else {
      hide Mul, Add, Elem;
      var next := Mul(Add(x, Elem(a[0])), h);
      assert (a + b)[1..] == a[1..] + b && (a + b)[0] == a[0];
      assert Horner(x, a + b, h) == Horner(next, (a + b)[1..], h);
      assert Horner(x, a, h) == Horner(next, a[1..], h);
      hide Horner;
      HornerConcat(next, a[1..], b, h);
    }
  }

  /** x := (x ^ block) * H */
  method Process(H: seq<byte>, block: seq<byte>, x: array<byte>)
    requires |H| == 16 && |block| == 16 && x.Length == 16
    modifies x
    ensures Elem(x[..]) == Mul(Add(Elem(old(x[..])), Elem(block)), Elem(H))
  {
    hide Elem, Add, Mul;
    var tmp := new byte[16](_ => 0);
    CopyBlock(tmp, x[..]);
    XorInto(tmp, block);
    Gf128MulSw(tmp[..], H, x);
  }

  /** Full blocks, then the zero-filled rest. */
  method ProcessAll(H: seq<byte>, data: seq<byte>, x: array<byte>)
    requires |H| == 16 && x.Length == 16
    modifies x
    ensures Elem(x[..]) == Horner(Elem(old(x[..])), Padded(data), Elem(H))
  {
    hide Elem, Add, Mul;
    var full := |data| / 16;
    ghost var target := Horner(Elem(x[..]), Padded(data), Elem(H));
    assert data[0..] == data;
    for i := 0 to full
      invariant target == Horner(Elem(x[..]), Padded(data[16 * i..]), Elem(H))
    {
      var block := data[16 * i..16 * i + 16];
      ghost var rest := data[16 * i..];
      assert rest[..16] == block && rest[16..] == data[16 * (i + 1)..];
      assert Padded(rest) == [block] + Padded(rest[16..]);
      assert Padded(rest)[1..] == Padded(rest[16..]);
      Process(H, block, x);
    }
    if |data| % 16 != 0 {
      ghost var rest := data[16 * full..];
      var pad := data[16 * full..] + seq(16 - |data| % 16, _ => 0);
      assert Padded(rest) == [pad] && Padded(rest)[1..] == [];
      Process(H, pad, x);
    } else {
      assert data[16 * full..] == [];
    }
  }

  method GhashSw(H: seq<byte>, aad: seq<byte>, data: seq<byte>, x: array<byte>)
    requires |H| == 16 && x.Length == 16
    modifies x
    ensures Elem(x[..]) == Ghash(Elem(H), aad, data)
  {
    hide Elem, Add, Mul, Padded;
    ClearBlock(x);
    ProcessAll(H, aad, x);
    ProcessAll(H, data, x);
    var lengths := LengthBlock(|aad|, |data|);
    ghost var before := Elem(x[..]);
    Process(H, lengths, x);
    assert [lengths][1..] == [];
    assert Horner(before, [lengths], Elem(H)) == Elem(x[..]);
    HornerConcat(Zero(), Padded(aad), Padded(data), Elem(H));
    HornerConcat(Zero(), Padded(aad) + Padded(data), [lengths], Elem(H));
  }

  method ClearBlock(x: array<byte>)
    requires x.Length == 16
    modifies x
    ensures Elem(x[..]) == Zero()
  {
    for i := 0 to 16
      invariant forall k :: 0 <= k < i ==> x[k] == 0
    {
      x[i] := 0;
    }
    ZeroBlock(x[..]);
  }

  // ------------------------------------------------------------ GCM

  /** E_K applied to sixteen zero bytes, as an element. */
  function HashKey(encrypt: Block -> Block): Element { Elem(encrypt(seq(16, _ => 0))) }

  /** The tag, as an element: GHASH of the ciphertext masked with the encrypted initial counter block. */
  function Tag(encrypt: Block -> Block, iv: seq<byte>, aad: seq<byte>, cipher: seq<byte>): Element
    requires |iv| == 12
  {
    Add(Ghash(HashKey(encrypt), aad, cipher), Elem(encrypt(Ctr.CounterBlock(iv, 1))))
  }

  /** A big-endian number in the last four bytes of a counter block. */
  function Counter(cb: Block): uint32 {
    cb[12] as int * 0x100_0000 + cb[13] as int * 0x1_0000 + cb[14] as int * 0x100 + cb[15] as int
  }

  lemma CounterOfBlock(cb: Block, nonce: seq<byte>, c: uint32)
    requires |nonce| == 12 && cb[..12] == nonce && Counter(cb) == c
    ensures cb == Ctr.CounterBlock(nonce, c)
  {
    assert c % 0x1_0000_0000 == c;
    ByteDigits(cb[12], cb[13], cb[14], cb[15]);
    assert cb == cb[..12] + [cb[12], cb[13], cb[14], cb[15]];
  }

  lemma ByteDigits(w: byte, x: byte, y: byte, z: byte)
    ensures BigEndian32(w as int * 0x100_0000 + x as int * 0x1_0000 + y as int * 0x100 + z as int) == [w, x, y, z]
  {
    Digits(w as int, x as int, y as int, z as int);
    assert (w as int) as byte == w && (x as int) as byte == x && (y as int) as byte == y && (z as int) as byte == z;
  }

  lemma Digits(a: int, b: int, c: int, d: int)
    requires 0 <= a < 0x100 && 0 <= b < 0x100 && 0 <= c < 0x100 && 0 <= d < 0x100
    ensures var n := a * 0x100_0000 + b * 0x1_0000 + c * 0x100 + d;
      n / 0x100_0000 == a && n / 0x1_0000 % 0x100 == b && n / 0x100 % 0x100 == c && n % 0x100 == d
  {
    var n := a * 0x100_0000 + b * 0x1_0000 + c * 0x100 + d;
    DivModUnique(n, 0x100_0000, a, b * 0x1_0000 + c * 0x100 + d);
    DivModUnique(n, 0x1_0000, a * 0x100 + b, c * 0x100 + d);
    DivModUnique(n, 0x100, a * 0x1_0000 + b * 0x100 + c, d);
    DivModUnique(a * 0x100 + b, 0x100, a, b);
    DivModUnique(a * 0x1_0000 + b * 0x100 + c, 0x100, a * 0x100 + b, c);
  }

  /** Increments the last four bytes, carrying backwards, and stops before touching the nonce. */
  method IncrementCounter(cb: array<byte>)
    requires cb.Length == 16
    modifies cb
    ensures cb[..12] == old(cb[..12])
    ensures Counter(cb[..]) == (Counter(old(cb[..])) + 1) % 0x1_0000_0000
  {
    ghost var start := cb[..];
    var i := 15;
    while i >= 12
      invariant 11 <= i <= 15
      invariant cb[..i + 1] == start[..i + 1]
      invariant forall k :: i < k < 16 ==> start[k] == 0xff && cb[k] == 0
    {
      assert cb[i] == start[i];
      ByteIncrement(start[i]);
      cb[i] := cb[i] + 1;
      if cb[i] != 0 {
        CounterIncrement(start, cb[..], i);
        assert cb[..12] == cb[..i][..12] == start[..i][..12];
        return;
      }
      i := i - 1;
    }
    assert Counter(start) == 0xffff_ffff && Counter(cb[..]) == 0;
  }

  lemma CounterIncrement(a: Block, b: Block, i: nat)
    requires 12 <= i < 16 && a[..i] == b[..i] && b[i] as int == a[i] as int + 1
    requires forall k :: i < k < 16 ==> a[k] == 0xff && b[k] == 0
    ensures Counter(b) == (Counter(a) + 1) % 0x1_0000_0000
  {
    hide *;
    CounterDigits(a);
    CounterDigits(b);
    ByteIncrements(a, b, i, 12);
    ByteIncrements(a, b, i, 13);
    ByteIncrements(a, b, i, 14);
    ByteIncrements(a, b, i, 15);
    DigitIncrement(i - 12, [a[12] as int, a[13] as int, a[14] as int, a[15] as int],
                   [b[12] as int, b[13] as int, b[14] as int, b[15] as int]);
  }

  lemma ByteIncrements(a: Block, b: Block, i: nat, k: nat)
    requires 12 <= i < 16 && 12 <= k < 16 && a[..i] == b[..i] && b[i] as int == a[i] as int + 1
    requires forall k :: i < k < 16 ==> a[k] == 0xff && b[k] == 0
    ensures k < i ==> a[k] as int == b[k] as int
    ensures k == i ==> b[k] as int == a[k] as int + 1
    ensures k > i ==> a[k] as int == 0xff && b[k] as int == 0
  {
    assert k < i ==> a[k] == a[..i][k] == b[..i][k] == b[k];
  }

  function Digits4(d: seq<int>): int
    requires |d| == 4
  {
    d[0] * 0x100_0000 + d[1] * 0x1_0000 + d[2] * 0x100 + d[3]
  }

  lemma DigitIncrement(i: nat, a: seq<int>, b: seq<int>)
    requires i < 4 && |a| == |b| == 4 && b[i] == a[i] + 1 && 0 <= Digits4(b) < 0x1_0000_0000
    requires forall k :: 0 <= k < i ==> a[k] == b[k]
    requires forall k :: i < k < 4 ==> a[k] == 0xff && b[k] == 0
    ensures Digits4(b) == (Digits4(a) + 1) % 0x1_0000_0000
  {
    assert Digits4(b) == Digits4(a) + 1;
    DivModUnique(Digits4(b), 0x1_0000_0000, 0, Digits4(b));
  }

  lemma CounterDigits(cb: Block)
    ensures Counter(cb) == Digits4([cb[12] as int, cb[13] as int, cb[14] as int, cb[15] as int])
    ensures 0 <= Counter(cb) < 0x1_0000_0000
  {
  }

  lemma ByteIncrement(b: byte)
    ensures b + 1 == 0 <==> b == 0xff
    ensures b != 0xff ==> (b + 1) as int == b as int + 1
  {
  }

  /** XORs one keystream block into place; the counter block then moves on. */
  method CryptLoop(encrypt: Block -> Block, iv: seq<byte>, input: seq<byte>, output: array<byte>)
    requires |iv| == 12 && |input| <= output.Length
    modifies output
    ensures output[..|input|] == Ctr.Crypt(encrypt, iv, 2, input)
    ensures output[|input|..] == old(output[|input|..])
  {
    hide Ctr.Crypt, Ctr.KeyByte, Ctr.CounterBlock, Ctr.Later, Counter;
    ghost var start := output[..];
    ghost var j := 0;
    var cb := FirstCounter(iv);
    Ctr.LaterZero(2);
    var offset := 0;
    while offset < |input|
      invariant fresh(cb) && cb.Length == 16 && cb[..12] == iv
      invariant Counter(cb[..]) == Ctr.Later(2, j) % 0x1_0000_0000
      invariant 0 <= offset <= |input| && offset == Min(16 * j, |input|)
      invariant Ctr.Written(output[..], start, Ctr.Crypt(encrypt, iv, 2, input), offset)
    {
      var blockLen := Min(|input| - offset, 16);
      Ctr.LaterAdd(2, j);
      ghost var c := Ctr.Later(2, j);
      CounterOfBlock(cb[..], iv, c % 0x1_0000_0000);
      CounterLow(iv, c);
      var keystream := encrypt(cb[..]);
      XorBlock(encrypt, iv, c, keystream, input, output, offset / 16, blockLen, start);
      IncrementCounter(cb);
      NextLow(2, j);
      offset := offset + blockLen;
      j := j + 1;
    }
  }

  method FirstCounter(iv: seq<byte>) returns (cb: array<byte>)
    requires |iv| == 12
    ensures fresh(cb) && cb.Length == 16 && cb[..12] == iv && Counter(cb[..]) == 2
  {
    cb := new byte[16](_ => 0);
    for i := 0 to 12
      invariant cb[..i] == iv[..i]
      invariant forall k :: 12 <= k < 16 ==> cb[k] == 0
    {
      cb[i] := iv[i];
    }
    cb[15] := 2;
    assert cb[..12] == iv;
  }

  lemma CounterLow(iv: seq<byte>, c: nat)
    requires |iv| == 12
    ensures Ctr.CounterBlock(iv, c % 0x1_0000_0000) == Ctr.CounterBlock(iv, c)
  {
    hide BigEndian32;
    DivModUnique(c % 0x1_0000_0000, 0x1_0000_0000, 0, c % 0x1_0000_0000);
  }

  lemma NextLow(c: nat, j: nat)
    ensures (Ctr.Later(c, j) % 0x1_0000_0000 + 1) % 0x1_0000_0000 == Ctr.Later(c, j + 1) % 0x1_0000_0000
  {
    var x: int := Ctr.Later(c, j);
    Ctr.LaterAdd(c, j);
    assert Ctr.Later(x, 1) == Ctr.Later(c, j + 1);
    if x == TWO_64 - 1 {
      DivModUnique(x + 1, TWO_64, 1, 0);
    } else {
      DivModUnique(x + 1, TWO_64, 0, x + 1);
    }
  }

  method XorBlock(encrypt: Block -> Block, iv: seq<byte>, ghost counter: uint64, keystream: seq<byte>,
                  input: seq<byte>, output: array<byte>, j: nat, blockLen: nat, ghost start: seq<byte>)
    requires |iv| == 12 && |input| <= output.Length == |start|
    requires blockLen <= 16 && 16 * j + blockLen <= |input|
    requires counter == Ctr.Later(2, j) && keystream == encrypt(Ctr.CounterBlock(iv, counter))
    requires Ctr.Written(output[..], start, Ctr.Crypt(encrypt, iv, 2, input), 16 * j)
    modifies output
    ensures Ctr.Written(output[..], start, Ctr.Crypt(encrypt, iv, 2, input), 16 * j + blockLen)
  {
    hide Ctr.Crypt, Ctr.KeyByte, Ctr.CounterBlock;
    for i := 0 to blockLen
      invariant Ctr.Written(output[..], start, Ctr.Crypt(encrypt, iv, 2, input), 16 * j + i)
    {
      Ctr.ResultByte(encrypt, iv, 2, counter, input, j, i);
      Ctr.WriteNext(output[..], start, Ctr.Crypt(encrypt, iv, 2, input), 16 * j + i);
      output[16 * j + i] := input[16 * j + i] ^ keystream[i];
    }
  }

  /** aes256_gcm_core_sw */
  method CoreSw(encrypt: Block -> Block, iv: seq<byte>, aad: seq<byte>, input: seq<byte>, output: array<byte>,
                tagOut: array<byte>, encrypting: bool)
    requires |iv| == 12 && output.Length == |input| && tagOut.Length == 16 && output != tagOut
    modifies output, tagOut
    ensures output[..] == Ctr.Crypt(encrypt, iv, 2, input)
    ensures Elem(tagOut[..]) == Tag(encrypt, iv, aad, if encrypting then output[..] else input)
  {
    hide Ctr.Crypt, Elem, Add;
    var H := encrypt(seq(16, _ => 0));
    var j0: Block := iv + [0, 0, 0, 1];
    FirstBlock(iv);
    var ej0 := encrypt(j0);
    CryptLoop(encrypt, iv, input, output);
    assert output[..|input|] == output[..];
    var cipher := if encrypting then output[..] else input;
    GhashSw(H, aad, cipher, tagOut);
    XorInto(tagOut, ej0);
  }

  lemma FirstBlock(iv: seq<byte>)
    requires |iv| == 12
    ensures iv + [0, 0, 0, 1] == Ctr.CounterBlock(iv, 1)
  {
  }

  /** Compares two byte strings without an early exit. */
  method SecureCompare(a: seq<byte>, b: seq<byte>) returns (equal: bool)
    requires |a| == |b|
    ensures equal == (a == b)
  {
    var diff: byte := 0;
    for i := 0 to |a|
      invariant diff == 0 <==> a[..i] == b[..i]
    {
      XorNonZero(a[i], b[i], diff);
      assert a[..i + 1] == a[..i] + [a[i]] && b[..i + 1] == b[..i] + [b[i]];
      diff := diff | (a[i] ^ b[i]);
    }
    assert a[..|a|] == a && b[..|b|] == b;
    equal := diff == 0;
  }

  lemma XorNonZero(x: byte, y: byte, diff: byte)
    ensures diff | (x ^ y) == 0 <==> diff == 0 && x == y
  {
  }

  method Encrypt(encrypt: Block -> Block, iv: seq<byte>, aad: seq<byte>, plain: seq<byte>)
    returns (cipher: array<byte>, tag: array<byte>)
    requires |iv| == 12
    ensures fresh(cipher) && fresh(tag) && tag.Length == 16
    ensures Sealed(encrypt, iv, aad, plain, cipher[..], tag[..])
  {
    cipher, tag := new byte[|plain|](_ => 0), new byte[16](_ => 0);
    CoreSw(encrypt, iv, aad, plain, cipher, tag, true);
  }

  /** aes256_gcm_decrypt: the plaintext is written before the tag is compared, and stays when it is refused. */
  method Decrypt(encrypt: Block -> Block, iv: seq<byte>, aad: seq<byte>, cipher: seq<byte>, tagIn: seq<byte>)
    returns (ok: bool, plain: array<byte>)
    requires |iv| == 12 && |tagIn| == 16
    ensures fresh(plain)
    ensures ok <==> Sealed(encrypt, iv, aad, plain[..], cipher, tagIn)
    ensures plain[..] == Ctr.Crypt(encrypt, iv, 2, cipher)
  {
    hide Ctr.Crypt, Elem, Add, Tag;
    plain := new byte[|cipher|](_ => 0);
    var computed := new byte[16](_ => 0);
    CoreSw(encrypt, iv, aad, cipher, plain, computed, false);
    ok := SecureCompare(computed[..], tagIn);
    if Elem(computed[..]) == Elem(tagIn) {
      ElemInjective(computed[..], tagIn);
    }
    Ctr.CryptUndoesItself(encrypt, iv, 2, cipher);
  }

  /** (cipher, tag) is what encryption makes of plain. */
  ghost predicate Sealed(encrypt: Block -> Block, iv: seq<byte>, aad: seq<byte>, plain: seq<byte>,
                         cipher: seq<byte>, tag: seq<byte>)
    requires |iv| == 12
  {
    && cipher == Ctr.Crypt(encrypt, iv, 2, plain)
    && |tag| == 16 && Elem(tag) == Tag(encrypt, iv, aad, cipher)
  }

  lemma ElemInjective(a: Block, b: Block)
    requires Elem(a) == Elem(b)
    ensures a == b
  {
    forall i | 0 <= i < 16
      ensures a[i] == b[i]
    {
      forall j | 0 <= j < 8
        ensures BitOf(a[i], j) == BitOf(b[i], j)
      {
        ElemAt(a, i, j);
        ElemAt(b, i, j);
      }
      ByteByBits(a[i], b[i]);
    }
  }

  lemma ByteByBits(x: byte, y: byte)
    requires forall j :: 0 <= j < 8 ==> BitOf(x, j) == BitOf(y, j)
    ensures x == y
  {
    assert BitOf(x, 0) == BitOf(y, 0) && BitOf(x, 1) == BitOf(y, 1) && BitOf(x, 2) == BitOf(y, 2);
    assert BitOf(x, 3) == BitOf(y, 3) && BitOf(x, 4) == BitOf(y, 4) && BitOf(x, 5) == BitOf(y, 5);
    assert BitOf(x, 6) == BitOf(y, 6) && BitOf(x, 7) == BitOf(y, 7);
  }

  /** Decryption accepts what encryption made and returns the plaintext. */
  method RoundTrip(encrypt: Block -> Block, iv: seq<byte>, aad: seq<byte>, plain: seq<byte>)
    returns (ok: bool, result: array<byte>)
    requires |iv| == 12
    ensures ok && result[..] == plain
  {
    var cipher, tag := Encrypt(encrypt, iv, aad, plain);
    Ctr.CryptUndoesItself(encrypt, iv, 2, plain);
    ok, result := Decrypt(encrypt, iv, aad, cipher[..], tag[..]);
  }
}
