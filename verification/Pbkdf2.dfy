/** HMAC-SHA256 and PBKDF2 with cached key states: src/advanced/secure_channel_crypto.cpp, lines 189-315. */
module Pbkdf2 {
  import opened Machine
  import opened Sha256

  // ------------------------------------------------------------ the plain definitions

  /** RFC 2104: long keys are hashed, short ones filled with zeros. */
  function KeyBlock(f: Compression, key: seq<byte>): Chunk {
    if |key| > 64 then Hash(f, key) + seq(32, _ => 0) else key + seq(64 - |key|, _ => 0)
  }

  function XorAll(s: seq<byte>, pad: byte): (t: seq<byte>)
    ensures |t| == |s|
  {
    seq(|s|, i requires 0 <= i < |s| => s[i] ^ pad)
  }

  function Hmac(f: Compression, key: seq<byte>, msg: seq<byte>): (mac: seq<byte>)
    ensures |mac| == 32
  {
    var k := KeyBlock(f, key);
    Hash(f, XorAll(k, 0x5c) + Hash(f, XorAll(k, 0x36) + msg))
  }

  /** Section 5.2 of RFC 8018: U_1 = PRF(P, S || INT(i)), U_n = PRF(P, U_{n-1}). */
  function U(f: Compression, password: seq<byte>, salt: seq<byte>, i: uint32, n: nat): (u: seq<byte>)
    requires n >= 1
    ensures |u| == 32
  {
    if n == 1 then Hmac(f, password, salt + BigEndian32(i)) else Hmac(f, password, U(f, password, salt, i, n - 1))
  }

  function XorSeq(s: seq<byte>, t: seq<byte>): (r: seq<byte>)
    requires |s| == |t|
    ensures |r| == |s|
  {
    seq(|s|, i requires 0 <= i < |s| => s[i] ^ t[i])
  }

  /** T_i = U_1 xor ... xor U_c */
  function T(f: Compression, password: seq<byte>, salt: seq<byte>, i: uint32, c: nat): (t: seq<byte>)
    requires c >= 1
    ensures |t| == 32
  {
    if c == 1 then U(f, password, salt, i, 1)
    else XorSeq(T(f, password, salt, i, c - 1), U(f, password, salt, i, c))
  }

  /** T_1 || ... || T_l, block numbers kept in 32 bits. */
  function Blocks(f: Compression, password: seq<byte>, salt: seq<byte>, c: nat, l: nat): (s: seq<byte>)
    requires c >= 1
    ensures |s| == 32 * l
  {
    if l == 0 then []
    else Blocks(f, password, salt, c, l - 1) + T(f, password, salt, l % 0x1_0000_0000, c)
  }

  function DerivedKey(f: Compression, password: seq<byte>, salt: seq<byte>, c: nat, length: nat): (dk: seq<byte>)
    requires c >= 1
    ensures |dk| == length
  {
    Blocks(f, password, salt, c, (length + 31) / 32)[..length]
  }

  lemma {:induction false} BlocksPrefix(f: Compression, password: seq<byte>, salt: seq<byte>, c: nat, l: nat, l': nat)
    requires c >= 1 && l <= l'
    ensures Blocks(f, password, salt, c, l) == Blocks(f, password, salt, c, l')[..32 * l]
    decreases l'
  {
    hide T;
    if l < l' {
      BlocksPrefix(f, password, salt, c, l, l' - 1);
      var shorter := Blocks(f, password, salt, c, l' - 1);
      assert Blocks(f, password, salt, c, l') == shorter + T(f, password, salt, l' % 0x1_0000_0000, c);
      assert (shorter + T(f, password, salt, l' % 0x1_0000_0000, c))[..32 * l] == shorter[..32 * l];
    } else {
      assert Blocks(f, password, salt, c, l)[..32 * l] == Blocks(f, password, salt, c, l);
    }
  }

  // ------------------------------------------------------------ the code

  method FillKeyBlock(f: Compression, key: seq<byte>) returns (keyBlock: array<byte>)
    ensures fresh(keyBlock) && keyBlock.Length == 64 && keyBlock[..] == KeyBlock(f, key)
  {
    hide Hash;
    keyBlock := new byte[64](_ => 0);
    ghost var zeros := keyBlock[..];
    if |key| > 64 {
      var d := Sha256.Sha256(f, key);
      CopyInto(keyBlock, 0, d);
      assert keyBlock[..] == keyBlock[..32] + keyBlock[32..];
      assert zeros[32..] == seq(32, _ => 0);
    } else {
      CopyInto(keyBlock, 0, key);
      assert keyBlock[..] == keyBlock[..|key|] + keyBlock[|key|..];
      assert zeros[|key|..] == seq(64 - |key|, _ => 0);
    }
  }

  /** The key block XORed with both pads. */
  method KeyPads(f: Compression, key: seq<byte>) returns (iPad: seq<byte>, oPad: seq<byte>)
    ensures iPad == XorAll(KeyBlock(f, key), 0x36) && oPad == XorAll(KeyBlock(f, key), 0x5c)
  {
    hide KeyBlock;
    var keyBlock := FillKeyBlock(f, key);
    var ip := XorPad(keyBlock[..], 0x36);
    var op := XorPad(keyBlock[..], 0x5c);
    iPad, oPad := ip[..], op[..];
  }

  method XorPad(keyBlock: seq<byte>, pad: byte) returns (p: array<byte>)
    ensures fresh(p) && p[..] == XorAll(keyBlock, pad)
  {
    p := new byte[|keyBlock|](_ => 0);
    for i := 0 to |keyBlock|
      invariant forall j :: 0 <= j < i ==> p[j] == keyBlock[j] ^ pad
    {
      p[i] := keyBlock[i] ^ pad;
    }
  }

  method HmacSha256(f: Compression, key: seq<byte>, data: seq<byte>) returns (mac: seq<byte>)
    ensures mac == Hmac(f, key, data)
  {
    hide Hash;
    var iPad, oPad := KeyPads(f, key);
    var innerCtx := new Context(f);
    innerCtx.Update(iPad);
    innerCtx.Update(data);
    assert [] + iPad == iPad;
    var innerHash := innerCtx.Final();
    var outerCtx := new Context(f);
    outerCtx.Update(oPad);
    outerCtx.Update(innerHash);
    assert [] + oPad == oPad;
    mac := outerCtx.Final();
  }

  /** HMAC from the cached states after the two key blocks; each call works on copies. */
  method HmacReuse(innerBase: Context, outerBase: Context, msg: seq<byte>, ghost key: seq<byte>)
    returns (out: seq<byte>)
    requires innerBase.Valid() && outerBase.Valid() && innerBase.f == outerBase.f
    requires innerBase.absorbed == XorAll(KeyBlock(innerBase.f, key), 0x36)
    requires outerBase.absorbed == XorAll(KeyBlock(innerBase.f, key), 0x5c)
    ensures out == Hmac(innerBase.f, key, msg)
  {
    hide Hash;
    var c := new Context.Copy(innerBase);
    c.Update(msg);
    var inner := c.Final();
    var o := new Context.Copy(outerBase);
    o.Update(inner);
    out := o.Final();
  }

  /** One block T_i: the first U, then iterations - 1 more, XORed in place. */
  method DeriveBlock(innerBase: Context, outerBase: Context, salt: seq<byte>, iterations: uint32, blockIndex: uint32,
                     ghost password: seq<byte>)
    returns (t: array<byte>)
    requires innerBase.Valid() && outerBase.Valid() && innerBase.f == outerBase.f
    requires innerBase.absorbed == XorAll(KeyBlock(innerBase.f, password), 0x36)
    requires outerBase.absorbed == XorAll(KeyBlock(innerBase.f, password), 0x5c)
    ensures fresh(t) && t.Length == 32
    ensures t[..] == T(innerBase.f, password, salt, blockIndex, if iterations == 0 then 1 else iterations)
  {
    hide Hmac, XorSeq, U, T, XorAll, KeyBlock;
    ghost var f := innerBase.f;
    FirstIteration(f, password, salt, blockIndex);
    var u := HmacReuse(innerBase, outerBase, salt + BigEndian32(blockIndex), password);
    t := new byte[32](_ => 0);
    CopyInto(t, 0, u);
    assert t[..] == t[..32] == u;
    var iter := 1;
    while iter < iterations
      invariant 1 <= iter && (iter <= iterations || (iterations == 0 && iter == 1))
      invariant t.Length == 32 && fresh(t)
      invariant u == U(f, password, salt, blockIndex, iter)
      invariant t[..] == T(f, password, salt, blockIndex, iter)
    {
      NextIteration(f, password, salt, blockIndex, iter + 1);
      u := HmacReuse(innerBase, outerBase, u, password);
      XorInPlace(t, u);
      iter := iter + 1;
    }
  }

  lemma FirstIteration(f: Compression, password: seq<byte>, salt: seq<byte>, i: uint32)
    ensures U(f, password, salt, i, 1) == Hmac(f, password, salt + BigEndian32(i))
    ensures T(f, password, salt, i, 1) == U(f, password, salt, i, 1)
  {
    hide Hmac;
  }

  lemma NextIteration(f: Compression, password: seq<byte>, salt: seq<byte>, i: uint32, n: nat)
    requires n >= 2
    ensures U(f, password, salt, i, n) == Hmac(f, password, U(f, password, salt, i, n - 1))
    ensures T(f, password, salt, i, n) == XorSeq(T(f, password, salt, i, n - 1), U(f, password, salt, i, n))
  {
    hide Hmac, XorSeq;
  }

  method XorInPlace(t: array<byte>, u: seq<byte>)
    requires t.Length == |u|
    modifies t
    ensures t[..] == XorSeq(old(t[..]), u)
  {
    ghost var t0 := t[..];
    for j := 0 to |u|
      invariant forall k :: 0 <= k < j ==> t[k] == t0[k] ^ u[k]
      invariant forall k :: j <= k < |u| ==> t[k] == t0[k]
    {
      t[j] := t[j] ^ u[j];
    }
  }

  /** The states after the two padded key blocks. */
  method BaseContexts(f: Compression, password: seq<byte>) returns (innerBase: Context, outerBase: Context)
    ensures fresh(innerBase) && fresh(outerBase) && fresh(innerBase.buffer) && fresh(outerBase.buffer)
    ensures innerBase.Valid() && outerBase.Valid() && innerBase.f == outerBase.f == f
    ensures innerBase.absorbed == XorAll(KeyBlock(f, password), 0x36)
    ensures outerBase.absorbed == XorAll(KeyBlock(f, password), 0x5c)
  {
    hide KeyBlock, XorAll;
    var iPad, oPad := KeyPads(f, password);
    innerBase := new Context(f);
    outerBase := new Context(f);
    innerBase.Update(iPad);
    outerBase.Update(oPad);
    assert [] + iPad == iPad && [] + oPad == oPad;
  }

  /** pbkdf2_sha256 */
  method Pbkdf2Sha256(f: Compression, password: seq<byte>, salt: seq<byte>, iterations: uint32, derivedKey: array<byte>)
    modifies derivedKey
    ensures derivedKey[..] == DerivedKey(f, password, salt, if iterations == 0 then 1 else iterations, derivedKey.Length)
  {
    hide DerivedKey, T, XorAll, KeyBlock;
    ghost var c := if iterations == 0 then 1 else iterations;
    var innerBase, outerBase := BaseContexts(f, password);
    var blockIndex: uint32 := 1;
    ghost var l := 0;
    var length, offset := derivedKey.Length, 0;
    ghost var result := DerivedKey(f, password, salt, c, length);
    while offset < length
      invariant innerBase.Valid() && outerBase.Valid() && innerBase.f == outerBase.f == f
      invariant fresh(innerBase) && fresh(outerBase) && fresh(innerBase.buffer) && fresh(outerBase.buffer)
      invariant innerBase.absorbed == XorAll(KeyBlock(f, password), 0x36)
      invariant outerBase.absorbed == XorAll(KeyBlock(f, password), 0x5c)
      invariant 0 <= offset <= length && offset == Min(32 * l, length)
      invariant blockIndex == (l + 1) % 0x1_0000_0000
      invariant derivedKey[..offset] == result[..offset]
    {
      var t := DeriveBlock(innerBase, outerBase, salt, iterations, blockIndex, password);
      var copyLen := Min(length - offset, 32);
      CopyInto(derivedKey, offset, t[..copyLen]);
      NextBlock(f, password, salt, c, length, l, copyLen);
      offset := offset + copyLen;
      NextIndex(l);
      blockIndex := (blockIndex as int + 1) % 0x1_0000_0000;
      l := l + 1;
    }
    assert derivedKey[..length] == derivedKey[..] && result[..length] == result;
  }

  lemma NextIndex(l: nat)
    ensures ((l + 1) % 0x1_0000_0000 + 1) % 0x1_0000_0000 == (l + 2) % 0x1_0000_0000
  {
    var q, r := (l + 1) / 0x1_0000_0000, (l + 1) % 0x1_0000_0000;
    DivModUnique(l + 2, 0x1_0000_0000, q + (r + 1) / 0x1_0000_0000, (r + 1) % 0x1_0000_0000);
  }

  /** Block l + 1 of the derived key, the last one truncated. */
  lemma NextBlock(f: Compression, password: seq<byte>, salt: seq<byte>, c: nat, length: nat, l: nat, n: nat)
    requires c >= 1 && 32 * l < length && n == Min(length - 32 * l, 32)
    ensures DerivedKey(f, password, salt, c, length)[..32 * l + n]
            == DerivedKey(f, password, salt, c, length)[..32 * l] + T(f, password, salt, (l + 1) % 0x1_0000_0000, c)[..n]
  {
    hide T;
    var all := Blocks(f, password, salt, c, (length + 31) / 32);
    BlocksPrefix(f, password, salt, c, l + 1, (length + 31) / 32);
    var t := T(f, password, salt, (l + 1) % 0x1_0000_0000, c);
    var front := Blocks(f, password, salt, c, l);
    assert Blocks(f, password, salt, c, l + 1) == front + t;
    assert all[..32 * (l + 1)] == front + t;
    var dk := all[..length];
    assert dk[..32 * l + n] == all[..32 * (l + 1)][..32 * l + n] == front + t[..n];
    assert dk[..32 * l] == all[..32 * (l + 1)][..32 * l] == front;
  }
}
