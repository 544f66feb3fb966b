/** The ChaCha20-Poly1305 construction of src/advanced/secure_channel_crypto.cpp, lines 1318-1346 and
    1468-1524, over any ChaCha block function of the 32-bit counter (key and nonce fixed). */
module ChaChaPoly {
  import opened Machine
  import opened Limbs
  import Poly1305
  import Ctr
  import Gcm

  type Block64 = s: seq<byte> | |s| == 64 witness seq(64, _ => 0)

  // ------------------------------------------------------------ the stream

  function Counter(start: uint32, j: nat): uint32 { (start + j) % 0x1_0000_0000 }

  function Stream(block: uint32 -> Block64, start: uint32, input: seq<byte>): (output: seq<byte>)
    ensures |output| == |input|
  {
    seq(|input|, i requires 0 <= i < |input| => input[i] ^ block(Counter(start, i / 64))[i % 64])
  }

  lemma StreamUndoesItself(block: uint32 -> Block64, start: uint32, input: seq<byte>)
    ensures Stream(block, start, Stream(block, start, input)) == input
  {
    forall i | 0 <= i < |input|
      ensures Stream(block, start, Stream(block, start, input))[i] == input[i]
    {
      XorTwice(input[i], block(Counter(start, i / 64))[i % 64]);
    }
  }

  lemma StreamByte(block: uint32 -> Block64, start: uint32, input: seq<byte>, j: nat, i: nat)
    requires i < 64 && 64 * j + i < |input|
    ensures Stream(block, start, input)[64 * j + i] == input[64 * j + i] ^ block(Counter(start, j))[i]
  {
    DivModUnique(64 * j + i, 64, j, i);
  }

  lemma CounterNext(start: uint32, j: nat)
    ensures Counter(start, 0) == start
    ensures (Counter(start, j) + 1) % 0x1_0000_0000 == Counter(start, j + 1)
  {
    var x, q: int := (start + j) % 0x1_0000_0000, (start + j) / 0x1_0000_0000;
    var y: int := x + 1;
    DivModUnique(start + j + 1, 0x1_0000_0000, q + y / 0x1_0000_0000, y % 0x1_0000_0000);
  }

  /** chacha20_xor */
  method ChaCha20Xor(block: uint32 -> Block64, start: uint32, input: seq<byte>, output: array<byte>)
    requires |input| <= output.Length
    modifies output
    ensures output[..|input|] == Stream(block, start, input)
    ensures output[|input|..] == old(output[|input|..])
  {
    hide Stream, Counter;
    ghost var before, result := output[..], Stream(block, start, input);
    CounterNext(start, 0);
    var pos, counter := 0, start;
    ghost var j := 0;
    while pos < |input|
      invariant 0 <= pos <= |input| && pos == Min(64 * j, |input|)
      invariant counter == Counter(start, j)
      invariant Ctr.Written(output[..], before, result, pos)
    {
      var ks := block(counter);
      CounterNext(start, j);
      counter := (counter as int + 1) % 0x1_0000_0000;
      var chunk := Min(64, |input| - pos);
      for i := 0 to chunk
        invariant Ctr.Written(output[..], before, result, pos + i)
      {
        StreamByte(block, start, input, j, i);
        Ctr.WriteNext(output[..], before, result, pos + i);
        output[pos + i] := input[pos + i] ^ ks[i];
      }
      pos := pos + chunk;
      j := j + 1;
    }
  }

  // ------------------------------------------------------------ the AEAD

  /** Ciphertext under counter 1, then the tag of the ciphertext under the first half of block 0. */
  function Seal(block: uint32 -> Block64, plain: seq<byte>): (sealed: seq<byte>)
    ensures |sealed| == |plain| + 16
  {
    var cipher := Stream(block, 1, plain);
    cipher + TagBytes(block, cipher)
  }

  function TagBytes(block: uint32 -> Block64, cipher: seq<byte>): (t: seq<byte>)
    ensures |t| == 16
  {
    var tag := Poly1305.Tag(block(0)[..32], cipher, Poly1305.CODE_PAD);
    Bytes(tag, 16)
  }

  lemma TagBytesUnique(block: uint32 -> Block64, cipher: seq<byte>, t: seq<byte>)
    requires |t| == 16 && LE(t) == Poly1305.Tag(block(0)[..32], cipher, Poly1305.CODE_PAD)
    ensures t == TagBytes(block, cipher)
  {
    var tag := LE(t);
    hide Poly1305.Tag, LE, Bytes;
    Pow2At64();
    Pow2Add(64, 64);
    assert 8 * 16 == 128;
    LERange(t);
    BytesValue(tag, 16);
    LEInjective(t, Bytes(tag, 16));
  }

  method Encrypt(block: uint32 -> Block64, plain: seq<byte>) returns (cipherWithTag: array<byte>)
    ensures fresh(cipherWithTag) && cipherWithTag[..] == Seal(block, plain)
  {
    hide Stream, Poly1305.Tag, LE;
    var polyKey := block(0)[..32];
    cipherWithTag := new byte[|plain| + 16](_ => 0);
    ChaCha20Xor(block, 1, plain, cipherWithTag);
    var n := |plain|;
    var cipher := cipherWithTag[..n];
    Poly1305.Poly1305Mac(polyKey, cipher, cipherWithTag, n);
    TagBytesUnique(block, cipher, cipherWithTag[n..n + 16]);
    assert cipherWithTag[..] == cipherWithTag[..n] + cipherWithTag[n..n + 16];
  }

  /** Accepts exactly the encryptions: a refused input is one no plaintext could have produced. */
  method Decrypt(block: uint32 -> Block64, cipherWithTag: seq<byte>) returns (ok: bool, plain: array<byte>)
    ensures fresh(plain)
    ensures ok ==> cipherWithTag == Seal(block, plain[..])
    ensures !ok ==> forall p :: cipherWithTag != Seal(block, p)
  {
    if |cipherWithTag| < 16 {
      plain := new byte[0];
      return false, plain;
    }
    hide Stream, Poly1305.Tag, LE, TagBytes;
    var n := |cipherWithTag| - 16;
    var cipher, tagIn := cipherWithTag[..n], cipherWithTag[n..];
    var computed := new byte[16](_ => 0);
    var polyKey := block(0)[..32];
    Poly1305.Poly1305Mac(polyKey, cipher, computed, 0);
    assert computed[0..16] == computed[..];
    TagBytesUnique(block, cipher, computed[..]);
    ok := Gcm.SecureCompare(computed[..], tagIn);
    plain := new byte[n](_ => 0);
    if !ok {
      forall p
        ensures cipherWithTag != Seal(block, p)
      {
        SealParts(block, p);
      }
      return;
    }
    ChaCha20Xor(block, 1, cipher, plain);
    assert plain[..n] == plain[..];
    StreamUndoesItself(block, 1, cipher);
    assert cipherWithTag == cipher + tagIn;
  }

  lemma SealParts(block: uint32 -> Block64, p: seq<byte>)
    ensures var s := Seal(block, p);
      s[|p|..] == TagBytes(block, s[..|p|]) && s[..|p|] == Stream(block, 1, p)
  {
  }

  /** Distinct plaintexts have distinct encryptions. */
  lemma SealInjective(block: uint32 -> Block64, p: seq<byte>, q: seq<byte>)
    requires Seal(block, p) == Seal(block, q)
    ensures p == q
  {
    hide TagBytes, Stream;
    assert |p| == |q|;
    SealParts(block, p);
    SealParts(block, q);
    StreamUndoesItself(block, 1, p);
    StreamUndoesItself(block, 1, q);
  }

  method RoundTrip(block: uint32 -> Block64, plain: seq<byte>) returns (ok: bool, result: array<byte>)
    ensures ok && result[..] == plain
  {
    var sealed := Encrypt(block, plain);
    ok, result := Decrypt(block, sealed[..]);
    if ok {
      SealInjective(block, result[..], plain);
    }
  }
}
