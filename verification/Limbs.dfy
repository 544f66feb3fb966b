/** Little-endian numbers in base 2^16 (field limbs, possibly signed or oversized) and base 2^8 (bytes). */
module Limbs {
  import opened Machine

  /** The integer that a sequence of 16-bit limbs stands for; limbs need not be normalised. */
  function Val(a: seq<int>): int {
    if a == [] then 0 else a[0] + 0x10000 * Val(a[1..])
  }

  /** 2^(16n), the weight of limb n. */
  function W(n: nat): (w: nat)
    ensures 0 < w
  {
    if n == 0 then 1 else 0x10000 * W(n - 1)
  }

  /** The integer that a little-endian byte string stands for. */
  function LE(s: seq<byte>): nat {
    if s == [] then 0 else s[0] as int + 0x100 * LE(s[1..])
  }

  lemma {:induction false} WAdd(m: nat, n: nat)
    ensures W(m + n) == W(m) * W(n)
  {
    if m != 0 {
      WAdd(m - 1, n);
      MulAssoc(0x10000, W(m - 1), W(n));
    }
  }

  lemma W16()
    ensures W(15) == 0x1_0000_0000_0000_0000_0000_0000_0000_0000_0000_0000_0000_0000_0000_0000_0000
    ensures W(16) == 0x1_0000_0000_0000_0000_0000_0000_0000_0000_0000_0000_0000_0000_0000_0000_0000_0000
  {
    assert W(1) == 0x10000 && W(2) == 0x1_0000_0000;
    WAdd(2, 2);
    WAdd(4, 4);
    WAdd(8, 8);
    assert W(16) == 0x10000 * W(15);
  }

  lemma {:induction false} ValAppend(a: seq<int>, x: int)
    ensures Val(a + [x]) == Val(a) + x * W(|a|)
  {
    if a == [] {
      assert Val([x]) == x + 0x10000 * Val([x][1..]);
    } else {
      ValAppend(a[1..], x);
      assert (a + [x])[1..] == a[1..] + [x];
      assert 0x10000 * (x * W(|a| - 1)) == x * W(|a|) by { MulAssoc(0x10000, x, W(|a| - 1)); }
    }
  }

  lemma ValPrefix(a: seq<int>, i: nat)
    requires i < |a|
    ensures Val(a[..i + 1]) == Val(a[..i]) + a[i] * W(i)
  {
    assert a[..i + 1] == a[..i] + [a[i]];
    ValAppend(a[..i], a[i]);
  }

  lemma {:induction false} ValConcat(a: seq<int>, b: seq<int>)
    ensures Val(a + b) == Val(a) + W(|a|) * Val(b)
  {
    if a == [] {
      assert a + b == b;
    } else {
      ValConcat(a[1..], b);
      assert (a + b)[1..] == a[1..] + b;
      MulAssoc(0x10000, W(|a| - 1), Val(b));
    }
  }

  lemma {:induction false} ValUpdate(a: seq<int>, k: nat, d: int)
    requires k < |a|
    ensures Val(a[k := a[k] + d]) == Val(a) + d * W(k)
  {
    var b := a[k := a[k] + d];
    if k == 0 {
      assert b[1..] == a[1..];
    } else {
      ValUpdate(a[1..], k - 1, d);
      assert b[1..] == a[1..][k - 1 := a[1..][k - 1] + d];
      assert 0x10000 * (d * W(k - 1)) == d * W(k) by { MulAssoc(0x10000, d, W(k - 1)); }
    }
  }

  /** Limb-wise `lo + c * hi`, with `hi` padded by zero limbs, is the same combination of values. */
  lemma {:induction false} ValLinear(s: seq<int>, lo: seq<int>, c: int, hi: seq<int>)
    requires |hi| <= |lo| == |s|
    requires forall k :: 0 <= k < |s| ==> s[k] == lo[k] + (if k < |hi| then c * hi[k] else 0)
    ensures Val(s) == Val(lo) + c * Val(hi)
  {
    if hi == [] {
      assert s == lo;
    } else {
      ValLinear(s[1..], lo[1..], c, hi[1..]);
      MulDistrib(hi[0], 0x10000 * Val(hi[1..]), c);
      assert c * (0x10000 * Val(hi[1..])) == 0x10000 * (c * Val(hi[1..]));
    }
  }

  lemma {:induction false} ValRange(a: seq<int>)
    requires forall k :: 0 <= k < |a| ==> 0 <= a[k] < 0x10000
    ensures 0 <= Val(a) < W(|a|)
  {
    if a != [] {
      ValRange(a[1..]);
    }
  }

  lemma {:induction false} ValBound(a: seq<int>, m: int)
    requires 0 <= m
    requires forall k :: 0 <= k < |a| ==> -m <= a[k] <= m
    ensures m - m * W(|a|) <= Val(a) <= m * W(|a|) - m
  {
    if a != [] {
      ValBound(a[1..], m);
      var w := m * W(|a| - 1);
      assert m * W(|a|) == 0x10000 * w by { MulAssoc(0x10000, m, W(|a| - 1)); }
    }
  }

  lemma {:induction false} ValZeros(a: seq<int>)
    requires forall k :: 0 <= k < |a| ==> a[k] == 0
    ensures Val(a) == 0
  {
    if a != [] {
      ValZeros(a[1..]);
    }
  }

  /** Reading bytes two at a time as 16-bit limbs does not change the number. */
  lemma {:induction false} BytePairs(s: seq<byte>, a: seq<int>)
    requires |s| == 2 * |a|
    requires forall i :: 0 <= i < |a| ==> a[i] == s[2 * i] as int + 0x100 * (s[2 * i + 1] as int)
    ensures LE(s) == Val(a)
  {
    if a != [] {
      forall i | 0 <= i < |a| - 1
        ensures a[1..][i] == s[2..][2 * i] as int + 0x100 * (s[2..][2 * i + 1] as int)
      {
        assert a[1..][i] == a[i + 1] == s[2 * (i + 1)] as int + 0x100 * (s[2 * (i + 1) + 1] as int);
      }
      BytePairs(s[2..], a[1..]);
      assert s[1..][1..] == s[2..];
    }
  }

  lemma {:induction false} LEInjective(s: seq<byte>, t: seq<byte>)
    requires |s| == |t| && LE(s) == LE(t)
    ensures s == t
  {
    if s != [] {
      ByteHead(s[0] as int, LE(s[1..]), t[0] as int, LE(t[1..]));
      assert s[0] == (s[0] as int) as byte == (t[0] as int) as byte == t[0];
      LEInjective(s[1..], t[1..]);
      assert s == [s[0]] + s[1..] && t == [t[0]] + t[1..];
    }
  }

  lemma ByteHead(x: int, a: int, y: int, b: int)
    requires 0 <= x < 0x100 && 0 <= y < 0x100 && x + 0x100 * a == y + 0x100 * b
    ensures x == y && a == b
  {
  }

  lemma ShiftOnce(b: byte, i: nat)
    requires 0 < i < 8
    ensures b >> i == (b >> 1) >> (i - 1)
    ensures (b >> 1) as int == b as int / 2
  {
    assert (b >> 1) as int == b as int / 2;
    if
    case i == 1 =>
    case i == 2 => assert b >> 2 == (b >> 1) >> 1;
    case i == 3 => assert b >> 3 == (b >> 1) >> 2;
    case i == 4 => assert b >> 4 == (b >> 1) >> 3;
    case i == 5 => assert b >> 5 == (b >> 1) >> 4;
    case i == 6 => assert b >> 6 == (b >> 1) >> 5;
    case i == 7 => assert b >> 7 == (b >> 1) >> 6;
  }

  /** Bit i of a byte, read with a shift, is bit i of its value. */
  lemma {:induction false} ByteBit(b: byte, i: nat)
    requires i < 8
    ensures ((b >> i) & 1) as int == if Bit(b as int, i) then 1 else 0
    decreases i
  {
    if i == 0 {
      assert (b & 1) as int == b as int % 2;
      assert b >> 0 == b;
    } else {
      ShiftOnce(b, i);
      ByteBit(b >> 1, i - 1);
    }
  }

  lemma {:induction false} LEBit(s: seq<byte>, i: nat)
    requires i < 8 * |s|
    ensures Bit(LE(s), i) == Bit(s[i / 8] as int, i % 8)
  {
    hide Bit, Pow2;
    var lo, hi := s[0] as int, LE(s[1..]);
    assert Pow2(8) == 0x100 by { Pow2At8(); }
    DivModUnique(LE(s), 0x100, hi, lo);
    if i < 8 {
      BitMod(LE(s), 8, i);
    } else {
      ShrIsDivision(LE(s), 8);
      BitShr(LE(s), 8, i - 8);
      LEBit(s[1..], i - 8);
    }
  }

  lemma Pow2At8()
    ensures Pow2(8) == 0x100
  {
  }

  lemma {:induction false} LEConcat(s: seq<byte>, t: seq<byte>)
    ensures LE(s + t) == LE(s) + Pow2(8 * |s|) * LE(t)
  {
    if s == [] {
      assert s + t == t;
    } else {
      LEConcat(s[1..], t);
      assert (s + t)[1..] == s[1..] + t;
      Pow2Byte(|s| - 1);
      MulAssoc(0x100, Pow2(8 * |s[1..]|), LE(t));
    }
  }

  lemma Pow2Byte(n: nat)
    ensures Pow2(8 * (n + 1)) == 0x100 * Pow2(8 * n)
  {
    Pow2Add(8, 8 * n);
    assert Pow2(8) == 0x100;
  }

  lemma {:induction false} LEZeros(s: seq<byte>)
    requires forall i :: 0 <= i < |s| ==> s[i] == 0
    ensures LE(s) == 0
  {
    if s != [] {
      LEZeros(s[1..]);
    }
  }

  lemma {:induction false} LERange(s: seq<byte>)
    ensures LE(s) < Pow2(8 * |s|)
  {
    if s != [] {
      LERange(s[1..]);
      Pow2Byte(|s| - 1);
    }
  }

  lemma ByteRound(x: int)
    requires 0 <= x < 0x100
    ensures x % 0x100 == x && (x as byte) as int == x
  {
    DivModUnique(x, 0x100, 0, x);
  }

  /** The low n bytes of x, least significant first. */
  function Bytes(x: nat, n: nat): (s: seq<byte>)
    ensures |s| == n
  {
    if n == 0 then [] else [(x % 0x100) as byte] + Bytes(x / 0x100, n - 1)
  }

  /** Byte i of a word is what `(uint8_t)(x >> (8 * i))` extracts. */
  lemma {:induction false} BytesAt(x: nat, n: nat, i: nat)
    requires i < n
    ensures Bytes(x, n)[i] == (Shr(x, 8 * i) % 0x100) as byte
  {
    if i != 0 {
      BytesAt(x / 0x100, n - 1, i - 1);
      ShrByte(x, 8 * (i - 1));
    }
  }

  lemma ShrByte(x: nat, s: nat)
    ensures Shr(x, s + 8) == Shr(x / 0x100, s)
  {
    ShrIsDivision(x, 8 + s);
    ShrIsDivision(x / 0x100, s);
    Pow2Add(8, s);
    assert Pow2(8) == 0x100;
    DivDiv(x, 0x100, Pow2(s));
  }

  lemma {:induction false} BytesValue(x: nat, n: nat)
    requires x < Pow2(8 * n)
    ensures LE(Bytes(x, n)) == x
  {
    if n != 0 {
      Pow2Byte(n - 1);
      hide Pow2;
      BytesValue(x / 0x100, n - 1);
      ByteRound(x % 0x100);
      assert Bytes(x, n)[1..] == Bytes(x / 0x100, n - 1);
    }
  }

  /** n bytes ORed together, least significant first. */
  method Load(b: seq<byte>, at: nat, n: nat) returns (t: uint64)
    requires n <= 8 && at + n <= |b|
    ensures t == LE(b[at..at + n])
  {
    hide LE, Or, Shl, Pow2;
    t := 0;
    LENothing(b, at);
    for i := 0 to n
      invariant t == LE(b[at..at + i])
    {
      OrNextByte(b[at..at + i], b[at + i]);
      assert b[at..at + (i + 1)] == b[at..at + i] + [b[at + i]];
      t := Or(t, Shl(b[at + i] as int, 8 * i));
    }
  }

  lemma LENothing(b: seq<byte>, at: nat)
    requires at <= |b|
    ensures LE(b[at..at + 0]) == 0
  {
  }

  lemma OrNextByte(s: seq<byte>, x: byte)
    requires |s| < 8
    ensures Or(LE(s), Shl(x as int, 8 * |s|)) == LE(s + [x]) < TWO_64
  {
    hide LE, Or, Shl, Pow2;
    LEAppend(s, x);
    LERange(s);
    Pow2AtMost(8 * (|s| + 1));
    ShlSmall(x as int, 8 * |s|);
    OrIsAdd(LE(s), x as int, 8 * |s|);
  }

  lemma LEAppend(s: seq<byte>, x: byte)
    ensures LE(s + [x]) == LE(s) + x as int * Pow2(8 * |s|)
    ensures x as int * Pow2(8 * |s|) <= LE(s + [x]) < Pow2(8 * (|s| + 1))
  {
    hide LE, Pow2;
    LEOne(x);
    LEConcat(s, [x]);
    LERange(s + [x]);
    Commute(Pow2(8 * |s|), x as int);
  }

  lemma Commute(x: int, y: int)
    ensures x * y == y * x
  {
  }

  lemma LEOne(x: byte)
    ensures LE([x]) == x as int
  {
    assert [x][1..] == [];
  }

  lemma OrTwoBytes(lo: byte, hi: byte)
    ensures Or(lo as int, hi as int * 0x100) == lo as int + 0x100 * (hi as int)
  {
    Pow2At8();
    OrIsAdd(lo as int, hi as int, 8);
  }
}
