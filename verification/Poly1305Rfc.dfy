/** Line 1404 of src/advanced/secure_channel_crypto.cpp gives the 1-bit of a full block the weight 2^122;
    section 2.5.1 of RFC 8439 gives it 2^128.  This module says exactly when that matters. */
module Poly1305Rfc {
  import opened Machine
  import opened Limbs
  import opened Poly1305

  /** The tag is the RFC 8439 tag for every key exactly when the message has no full 16-byte block. */
  lemma AgreesWithRfcIffShort(msg: seq<byte>)
    requires |msg| < TWO_64
    ensures (forall key: seq<byte> | |key| == 32 :: Tag(key, msg, CODE_PAD) == Tag(key, msg, RFC_PAD))
            <==> |msg| < 16
  {
    if |msg| < 16 {
      forall key: seq<byte> | |key| == 32
        ensures Tag(key, msg, CODE_PAD) == Tag(key, msg, RFC_PAD)
      {
        NoFullBlock(msg, LE(Clamp(key[..16])));
      }
    } else {
      LongMessagesDiffer(msg);
      assert Tag(UnitKey(), msg, CODE_PAD) != Tag(UnitKey(), msg, RFC_PAD);
    }
  }

  lemma NoFullBlock(msg: seq<byte>, r: nat)
    requires |msg| < 16
    ensures Accumulate(msg, r, 0, CODE_PAD) == Accumulate(msg, r, 0, RFC_PAD)
  {
    if msg != [] {
      assert Min(16, |msg|) == |msg| && msg[|msg|..] == [];
      hide LE;
      assert BlockValue(msg[..|msg|], CODE_PAD) == BlockValue(msg[..|msg|], RFC_PAD);
    }
  }

  /** r = 1, s = 0. */
  function UnitKey(): (k: seq<byte>)
    ensures |k| == 32
  {
    [1] + seq(31, _ => 0)
  }

  lemma UnitKeyParts()
    ensures LE(Clamp(UnitKey()[..16])) == 1 && LE(UnitKey()[16..]) == 0
  {
    var r := Clamp(UnitKey()[..16]);
    assert r[0] == 1 && forall i :: 1 <= i < 16 ==> r[i] == 0;
    LEZeros(r[1..]);
    LEZeros(UnitKey()[16..]);
  }

  /** Under the unit key the pad bits simply add up: one per full block. */
  lemma {:induction false} PadsAddUp(msg: seq<byte>, h: int, full: nat)
    requires 0 <= h < Q
    ensures Accumulate(msg, 1, h, full) == (Accumulate(msg, 1, h, 0) + (|msg| / 16) * full) % Q
    decreases |msg|
  {
    hide LE, Accumulate, BlockValue;
    var count := |msg| / 16;
    if |msg| < 16 {
      ShortMessage(msg, h, full);
      assert count == 0;
    } else {
      var rest := msg[16..];
      var plain := LE(msg[..16]);
      var x, y := (h + plain + full) % Q, (h + plain) % Q;
      FullBlock(msg, h, full);
      FullBlock(msg, h, 0);
      assert |rest| / 16 == count - 1;
      PadsAddUp(rest, x, full);
      StartAddsUp(rest, x);
      StartAddsUp(rest, y);
      AddingUp(h + plain, full, Accumulate(rest, 1, 0, 0), Accumulate(rest, 1, x, 0), Accumulate(rest, 1, y, 0),
               count - 1);
    }
  }

  /** Less than a block takes no pad bit. */
  lemma ShortMessage(msg: seq<byte>, h: int, full: nat)
    requires 0 <= h < Q && |msg| < 16
    ensures Accumulate(msg, 1, h, full) == (Accumulate(msg, 1, h, 0) + 0 * full) % Q
  {
    if msg == [] {
      DivModUnique(h, Q, 0, h);
    } else {
      assert Min(16, |msg|) == |msg| && msg[|msg|..] == [];
      var x := ((h + BlockValue(msg[..|msg|], 0)) * 1) % Q;
      assert Accumulate(msg, 1, h, 0) == x == Accumulate(msg, 1, h, full);
      DivModUnique(x, Q, 0, x);
    }
  }

  lemma FullBlock(msg: seq<byte>, h: int, full: nat)
    requires |msg| >= 16
    ensures Accumulate(msg, 1, h, full) == Accumulate(msg[16..], 1, (h + LE(msg[..16]) + full) % Q, full)
  {
    hide LE;
  }

  lemma AddingUp(h: int, full: int, a: int, ax: int, ay: int, n: int)
    requires ax == (a + (h + full) % Q) % Q && ay == (a + h % Q) % Q
    ensures (ax + n * full) % Q == (ay + (n + 1) * full) % Q
  {
    var k1, k2 := (a + (h + full) % Q) / Q, (h + full) / Q;
    var k3, k4 := (a + h % Q) / Q, h / Q;
    assert ax == a + h + full - Q * (k1 + k2);
    assert ay == a + h - Q * (k3 + k4);
    MulDistrib(n, 1, full);
    CongruentModQ(ax + n * full, ay + (n + 1) * full, k1 + k2 - k3 - k4);
  }

  lemma {:induction false} StartAddsUp(msg: seq<byte>, h: int)
    requires 0 <= h < Q
    ensures Accumulate(msg, 1, h, 0) == (Accumulate(msg, 1, 0, 0) + h) % Q
    decreases |msg|
  {
    if msg == [] {
      DivModUnique(h, Q, 0, h);
    } else {
      var n := Min(16, |msg|);
      var b, rest := BlockValue(msg[..n], 0), msg[n..];
      var x, y := (h + b) % Q, b % Q;
      assert Accumulate(msg, 1, h, 0) == Accumulate(rest, 1, x, 0);
      assert Accumulate(msg, 1, 0, 0) == Accumulate(rest, 1, y, 0);
      hide LE, Accumulate, BlockValue;
      StartAddsUp(rest, x);
      StartAddsUp(rest, y);
      var a := Accumulate(rest, 1, 0, 0);
      var k1, k2 := (h + b) / Q, b / Q;
      var k3 := (a + y) / Q;
      assert a + x == a + h + b - Q * k1;
      assert (a + y) % Q + h == a + b - Q * (k2 + k3) + h;
      CongruentModQ(a + x, (a + y) % Q + h, k1 - k2 - k3);
    }
  }

  lemma LongMessagesDiffer(msg: seq<byte>)
    requires 16 <= |msg| < TWO_64
    ensures Tag(UnitKey(), msg, CODE_PAD) != Tag(UnitKey(), msg, RFC_PAD)
  {
    hide Accumulate, LE, Clamp, UnitKey, Tag;
    var n := |msg| / 16;
    var a := Accumulate(msg, 1, 0, 0);
    UnitTag(msg, CODE_PAD);
    UnitTag(msg, RFC_PAD);
    PadGap(a, n);
  }

  lemma UnitTag(msg: seq<byte>, full: nat)
    ensures Tag(UnitKey(), msg, full) == ((Accumulate(msg, 1, 0, 0) + (|msg| / 16) * full) % Q) % TWO_128
  {
    hide Accumulate, LE, Clamp, UnitKey;
    UnitKeyParts();
    PadsAddUp(msg, 0, full);
  }

  /** The two residues differ by 63 n 2^122 modulo 2^130 - 5, which no n below 2^60 makes a multiple of 2^128. */
  lemma PadGap(a: int, n: int)
    requires 0 < n < 0x1000_0000_0000_0000
    ensures ((a + n * CODE_PAD) % Q) % TWO_128 != ((a + n * RFC_PAD) % Q) % TWO_128
  {
    var p, b := 63 * n / 256, 63 * n % 256;
    var gap := 5 * p + b * CODE_PAD;
    assert n * RFC_PAD == n * CODE_PAD + Q * p + gap;
    ShiftedResidue(a + n * CODE_PAD, gap, p, a + n * RFC_PAD);
    GapIsNoMultiple(n, p, b);
  }

  /** Moving a number by gap moves its residue by gap, or by gap - Q. */
  lemma ShiftedResidue(u: int, gap: int, p: int, v: int)
    requires v == u + Q * p + gap && 0 <= gap < Q
    ensures v % Q == u % Q + gap || v % Q == u % Q + gap - Q
    ensures (u % Q) % TWO_128 == (v % Q) % TWO_128 ==> exists j: int :: gap == Multiple(j) || gap + 5 == Multiple(j)
  {
    var k := u / Q;
    var x := u % Q;
    if x + gap < Q {
      DivModUnique(v, Q, k + p, x + gap);
    } else {
      DivModUnique(v, Q, k + p + 1, x + gap - Q);
    }
    var y := v % Q;
    if x % TWO_128 == y % TWO_128 {
      var j := y / TWO_128 - x / TWO_128;
      assert gap == Multiple(j) || gap + 5 == Multiple(j + 4);
    }
  }

  function Multiple(j: int): int { j * TWO_128 }

  lemma GapIsNoMultiple(n: int, p: int, b: int)
    requires 0 < n < 0x1000_0000_0000_0000 && 63 * n == 256 * p + b && 0 <= b < 256
    ensures 0 <= 5 * p + b * CODE_PAD < Q
    ensures forall j: int :: 5 * p + b * CODE_PAD != Multiple(j) && 5 * p + b * CODE_PAD + 5 != Multiple(j)
  {
    var c, e := b / 64, b % 64;
    var low := 5 * p + e * CODE_PAD;
    assert b * CODE_PAD == e * CODE_PAD + c * TWO_128;
    forall j: int
      ensures low + c * TWO_128 != Multiple(j) && low + c * TWO_128 + 5 != Multiple(j)
    {
      Between(low, c, j);
      Between(low + 5, c, j);
    }
  }

  lemma Between(low: int, c: int, j: int)
    requires 0 < low < TWO_128
    ensures low + c * TWO_128 != Multiple(j)
  {
  }
}
