/** Multiplication in GF(2^128) and GHASH, byte by byte and bit by bit:
    src/advanced/secure_channel_crypto.cpp, lines 901-963. */
module Gf128 {
  import opened Machine

  // ------------------------------------------------------------ polynomials over GF(2)

  /** Coefficients, constant term first. */
  type Poly = seq<bool>

  function PolyAdd(p: Poly, q: Poly): Poly {
    if p == [] then q else if q == [] then p else [p[0] != q[0]] + PolyAdd(p[1..], q[1..])
  }

  function PolyMul(p: Poly, q: Poly): Poly {
    if p == [] then [] else PolyAdd(if p[0] then q else [], [false] + PolyMul(p[1..], q))
  }

  /** x^128 + x^7 + x^2 + x + 1 */
  function Modulus(): (g: Poly)
    ensures |g| == 129 && forall k :: 0 <= k < 129 ==> g[k] == (k in {0, 1, 2, 7, 128})
  {
    seq(129, k => k in {0, 1, 2, 7, 128})
  }

  // ------------------------------------------------------------ residues modulo that polynomial

  /** A polynomial of degree below 128. */
  type Element = p: Poly | |p| == 128 witness seq(128, _ => false)

  function Zero(): (z: Element)
    ensures forall k :: 0 <= k < 128 ==> !z[k]
  {
    seq(128, _ => false)
  }

  function Add(a: Element, b: Element): (c: Element)
    ensures forall k :: 0 <= k < 128 ==> c[k] == (a[k] != b[k])
  {
    seq(128, k requires 0 <= k < 128 => a[k] != b[k])
  }

  /** Multiplication by x: coefficients move up, and x^128 is x^7 + x^2 + x + 1. */
  function TimesX(v: Element): (w: Element)
    ensures forall k :: 0 <= k < 128 ==> w[k] == ((k > 0 && v[k - 1]) != (k in {0, 1, 2, 7} && v[127]))
  {
    seq(128, k requires 0 <= k < 128 => (k > 0 && v[k - 1]) != (k in {0, 1, 2, 7} && v[127]))
  }

  /** p reduced modulo x^128 + x^7 + x^2 + x + 1, times b, by Horner's rule. */
  function Times(p: Poly, b: Element): Element {
    if p == [] then Zero() else Add(if p[0] then b else Zero(), TimesX(Times(p[1..], b)))
  }

  function One(): (e: Element)
    ensures forall k :: 0 <= k < 128 ==> e[k] == (k == 0)
  {
    seq(128, k => k == 0)
  }

  function Residue(p: Poly): Element { Times(p, One()) }

  lemma AddShuffle(a: Element, b: Element, c: Element, d: Element)
    ensures Add(Add(a, b), Add(c, d)) == Add(Add(a, c), Add(b, d))
  {
  }

  // Residue is the reduction map: additive, the identity below degree 128, zero on multiples of the modulus.

  lemma {:induction false} ResidueAdd(p: Poly, q: Poly)
    ensures Residue(PolyAdd(p, q)) == Add(Residue(p), Residue(q))
  {
    if p == [] {
      assert Residue(q) == Add(Zero(), Residue(q));
    } else if q == [] {
      assert Residue(p) == Add(Residue(p), Zero());
    } else {
      ResidueAdd(p[1..], q[1..]);
      var rp, rq := Residue(p[1..]), Residue(q[1..]);
      var c, d := if p[0] then One() else Zero(), if q[0] then One() else Zero();
      assert (if p[0] != q[0] then One() else Zero()) == Add(c, d);
      assert PolyAdd(p, q)[1..] == PolyAdd(p[1..], q[1..]);
      hide Times, PolyAdd;
      TimesXAdd(rp, rq);
      AddShuffle(c, d, TimesX(rp), TimesX(rq));
    }
  }

  lemma {:induction false} ResidueOfSmall(p: Poly)
    requires |p| <= 128
    ensures Residue(p) == p + seq(128 - |p|, _ => false)
  {
    if p != [] {
      ResidueOfSmall(p[1..]);
    }
  }

  lemma MultiplesVanish(q: Poly)
    ensures Residue(PolyMul(q, Modulus())) == Zero()
  {
    ResidueMul(q, Modulus());
    ModulusVanishes();
    TimesZero(q);
  }

  lemma ModulusVanishes()
    ensures Residue(Modulus()) == Zero()
  {
    var g := Modulus();
    ResidueOfSmall(g[1..]);
    assert forall k :: 0 <= k < 128 ==> g[1..][k] == g[k + 1];
  }

  lemma {:induction false} TimesZero(p: Poly)
    ensures Times(p, Zero()) == Zero()
  {
    if p != [] {
      TimesZero(p[1..]);
    }
  }

  /** The residue of a product needs only the residue of the second factor. */
  lemma {:induction false} ResidueMul(p: Poly, q: Poly)
    ensures Residue(PolyMul(p, q)) == Times(p, Residue(q))
  {
    if p != [] {
      var rest := [false] + PolyMul(p[1..], q);
      assert rest[1..] == PolyMul(p[1..], q);
      ResidueMul(p[1..], q);
      assert Residue(rest) == TimesX(Times(p[1..], Residue(q)));
      ResidueAdd(if p[0] then q else [], rest);
    }
  }

  // ------------------------------------------------------------ the multiplication and its laws

  function Mul(a: Element, b: Element): Element { Times(a, b) }

  /** Mul is multiplication of polynomials followed by reduction. */
  lemma MulIsPolynomialProduct(a: Element, b: Element)
    ensures Mul(a, b) == Residue(PolyMul(a, b))
  {
    ResidueMul(a, b);
    ResidueOfSmall(b);
    assert b + [] == b;
  }

  lemma {:induction false} TimesAdd(p: Poly, b: Element, c: Element)
    ensures Times(p, Add(b, c)) == Add(Times(p, b), Times(p, c))
  {
    if p != [] {
      TimesAdd(p[1..], b, c);
      var tb, tc := Times(p[1..], b), Times(p[1..], c);
      TimesXAdd(tb, tc);
      AddShuffle(if p[0] then b else Zero(), if p[0] then c else Zero(), TimesX(tb), TimesX(tc));
      assert Zero() == Add(Zero(), Zero());
    } else {
      assert Zero() == Add(Zero(), Zero());
    }
  }

  lemma TimesXAdd(b: Element, c: Element)
    ensures TimesX(Add(b, c)) == Add(TimesX(b), TimesX(c))
  {
  }

  lemma {:induction false} TimesTimesX(p: Poly, b: Element)
    ensures Times(p, TimesX(b)) == TimesX(Times(p, b))
  {
    if p == [] {
      assert TimesX(Zero()) == Zero();
    } else {
      TimesTimesX(p[1..], b);
      TimesXAdd(if p[0] then b else Zero(), TimesX(Times(p[1..], b)));
      assert TimesX(Zero()) == Zero();
    }
  }

  lemma {:induction false} TimesComm(p: Poly, q: Poly)
    ensures Times(p, Residue(q)) == Times(q, Residue(p))
  {
    if p == [] {
      TimesZero(q);
    } else {
      var head := if p[0] then One() else Zero();
      TimesComm(p[1..], q);
      TimesAdd(q, head, TimesX(Residue(p[1..])));
      TimesTimesX(q, Residue(p[1..]));
      TimesZero(q);
    }
  }

  lemma {:induction false} TimesExchange(p: Poly, q: Poly, b: Element)
    ensures Times(p, Times(q, b)) == Times(q, Times(p, b))
  {
    if q == [] {
      TimesZero(p);
    } else {
      var head := if q[0] then b else Zero();
      TimesExchange(p, q[1..], b);
      TimesAdd(p, head, TimesX(Times(q[1..], b)));
      TimesTimesX(p, Times(q[1..], b));
      TimesZero(p);
    }
  }

  lemma MulComm(a: Element, b: Element)
    ensures Mul(a, b) == Mul(b, a)
  {
    ResidueOfSmall(a);
    ResidueOfSmall(b);
    assert a + [] == a && b + [] == b;
    TimesComm(a, b);
  }

  lemma MulLinear(a: Element, b: Element, c: Element)
    ensures Mul(a, Add(b, c)) == Add(Mul(a, b), Mul(a, c))
    ensures Mul(Add(b, c), a) == Add(Mul(b, a), Mul(c, a))
  {
    TimesAdd(a, b, c);
    MulComm(a, b);
    MulComm(a, c);
    MulComm(a, Add(b, c));
  }

  lemma MulAssociative(a: Element, b: Element, c: Element)
    ensures Mul(Mul(a, b), c) == Mul(a, Mul(b, c))
  {
    MulComm(Mul(a, b), c);
    TimesExchange(c, a, b);
    MulComm(c, b);
  }

  // ------------------------------------------------------------ bytes

  function Mask(j: nat): byte
    requires j < 8
  {
    if j == 0 then 0x80 else if j == 1 then 0x40 else if j == 2 then 0x20 else if j == 3 then 0x10
    else if j == 4 then 0x08 else if j == 5 then 0x04 else if j == 6 then 0x02 else 0x01
  }

  /** Bit j of a byte in the order of section 6.3 of NIST SP 800-38D: bit 0 is the top bit. */
  predicate BitOf(x: byte, j: nat)
    requires j < 8
  {
    x & Mask(j) != 0
  }

  /** The source's test `(x >> bit) & 1`. */
  lemma BitTest(x: byte, bit: nat)
    requires bit < 8
    ensures ((x >> bit) & 1 == 1) == BitOf(x, 7 - bit)
  {
    if
    case bit == 0 => assert ((x >> 0) & 1 == 1) == (x & 0x01 != 0);
    case bit == 1 => assert ((x >> 1) & 1 == 1) == (x & 0x02 != 0);
    case bit == 2 => assert ((x >> 2) & 1 == 1) == (x & 0x04 != 0);
    case bit == 3 => assert ((x >> 3) & 1 == 1) == (x & 0x08 != 0);
    case bit == 4 => assert ((x >> 4) & 1 == 1) == (x & 0x10 != 0);
    case bit == 5 => assert ((x >> 5) & 1 == 1) == (x & 0x20 != 0);
    case bit == 6 => assert ((x >> 6) & 1 == 1) == (x & 0x40 != 0);
    case bit == 7 => assert ((x >> 7) & 1 == 1) == (x & 0x80 != 0);
  }

  /** A block as an element: bit 0 of byte 0 is the coefficient of x^0. */
  function Elem(s: Block): Element {
    seq(128, k requires 0 <= k < 128 => BitOf(s[k / 8], k % 8))
  }

  lemma ElemAt(s: Block, i: nat, j: nat)
    requires i < 16 && j < 8
    ensures Elem(s)[8 * i + j] == BitOf(s[i], j)
  {
    DivModUnique(8 * i + j, 8, i, j);
  }

  /** Two elements agree if they agree byte by byte. */
  lemma ElementExtensionality(a: Element, b: Element)
    requires forall i, j :: 0 <= i < 16 && 0 <= j < 8 ==> Coefficient(a, i, j) == Coefficient(b, i, j)
    ensures a == b
  {
    forall k | 0 <= k < 128
      ensures a[k] == b[k]
    {
      assert k == 8 * (k / 8) + k % 8;
      assert Coefficient(a, k / 8, k % 8) == Coefficient(b, k / 8, k % 8);
    }
  }

  function Coefficient(a: Element, i: nat, j: nat): bool
    requires i < 16 && j < 8
  {
    a[8 * i + j]
  }

  lemma BitOfXor(x: byte, y: byte, j: nat)
    requires j < 8
    ensures BitOf(x ^ y, j) == (BitOf(x, j) != BitOf(y, j))
  {
    var m := Mask(j);
    assert (x ^ y) & m == (x & m) ^ (y & m);
    assert m == 0x80 || m == 0x40 || m == 0x20 || m == 0x10 || m == 0x08 || m == 0x04 || m == 0x02 || m == 0x01;
    MaskedBit(x, m);
    MaskedBit(y, m);
  }

  lemma MaskedBit(x: byte, m: byte)
    requires m == 0x80 || m == 0x40 || m == 0x20 || m == 0x10 || m == 0x08 || m == 0x04 || m == 0x02 || m == 0x01
    ensures x & m == 0 || x & m == m
  {
  }

  /** One byte of the right shift: the byte before hands its last bit down. */
  lemma BitOfShift(x: byte, prev: byte, j: nat)
    requires j < 8
    ensures BitOf((x >> 1) | (prev << 7), j) == if j == 0 then BitOf(prev, 7) else BitOf(x, j - 1)
  {
    var r := (x >> 1) | (prev << 7);
    if
    case j == 0 => assert (r & 0x80 != 0) == (prev & 0x01 != 0);
    case j == 1 => assert (r & 0x40 != 0) == (x & 0x80 != 0);
    case j == 2 => assert (r & 0x20 != 0) == (x & 0x40 != 0);
    case j == 3 => assert (r & 0x10 != 0) == (x & 0x20 != 0);
    case j == 4 => assert (r & 0x08 != 0) == (x & 0x10 != 0);
    case j == 5 => assert (r & 0x04 != 0) == (x & 0x08 != 0);
    case j == 6 => assert (r & 0x02 != 0) == (x & 0x04 != 0);
    case j == 7 => assert (r & 0x01 != 0) == (x & 0x02 != 0);
  }

  lemma BitOfReducer(j: nat)
    requires j < 8
    ensures BitOf(0xe1, j) == (j in {0, 1, 2, 7})
  {
  }

  // ------------------------------------------------------------ gf128_mul_sw

  /** Byte i of a block shifted right by one bit. */
  function Shifted(v: Block, i: nat): byte
    requires i < 16
  {
    var prev: byte := if i == 0 then 0 else v[i - 1];
    (v[i] >> 1) | (prev << 7)
  }

  /** v := v * x, in place: the byte-wise right shift and the conditional 0xe1. */
  method ShiftRight(v: array<byte>)
    requires v.Length == 16
    modifies v
    ensures Elem(v[..]) == TimesX(Elem(old(v[..])))
  {
    ghost var v0 := v[..];
    var carry: byte := 0;
    for k := 0 to 16
      invariant carry == if k == 0 then 0 else v0[k - 1] << 7
      invariant forall i :: 0 <= i < k ==> v[i] == Shifted(v0, i)
      invariant forall i :: k <= i < 16 ==> v[i] == v0[i]
    {
      var next := v[k] << 7;
      v[k] := (v[k] >> 1) | carry;
      carry := next;
    }
    ghost var v1 := v[..];
    LastBit(v0[15]);
    if carry != 0 {
      v[0] := v[0] ^ 0xe1;
    }
    ShiftedElem(v0, v1, v[..]);
  }

  lemma LastBit(x: byte)
    ensures (x << 7 != 0) == BitOf(x, 7)
  {
  }

  lemma ShiftedElem(v0: Block, v1: Block, v2: Block)
    requires forall i :: 0 <= i < 16 ==> v1[i] == Shifted(v0, i)
    requires v2 == if BitOf(v0[15], 7) then v1[0 := v1[0] ^ 0xe1] else v1
    ensures Elem(v2) == TimesX(Elem(v0))
  {
    hide *;
    forall i, j | 0 <= i < 16 && 0 <= j < 8
      ensures Coefficient(Elem(v2), i, j) == Coefficient(TimesX(Elem(v0)), i, j)
    {
      ShiftedCoefficient(v0, v1, v2, i, j);
    }
    ElementExtensionality(Elem(v2), TimesX(Elem(v0)));
  }

  lemma ShiftedCoefficient(v0: Block, v1: Block, v2: Block, i: nat, j: nat)
    requires forall i :: 0 <= i < 16 ==> v1[i] == Shifted(v0, i)
    requires v2 == if BitOf(v0[15], 7) then v1[0 := v1[0] ^ 0xe1] else v1
    requires i < 16 && j < 8
    ensures Coefficient(Elem(v2), i, j) == Coefficient(TimesX(Elem(v0)), i, j)
  {
    hide BitOf, Shifted, Elem, TimesX;
    CoefficientOfTimesX(Elem(v0), i, j);
    ElemAt(v0, 15, 7);
    ElemAt(v2, i, j);
    ShiftedBit(v0, i, j);
    if i == 0 {
      BitOfXor(v1[0], 0xe1, j);
      BitOfReducer(j);
    } else {
      assert v2[i] == v1[i];
    }
  }

  lemma CoefficientOfTimesX(v: Element, i: nat, j: nat)
    requires i < 16 && j < 8
    ensures var k := 8 * i + j;
      Coefficient(TimesX(v), i, j) == ((k > 0 && v[k - 1]) != (k in {0, 1, 2, 7} && v[127]))
  {
  }

  lemma ShiftedBit(v: Block, i: nat, j: nat)
    requires i < 16 && j < 8
    ensures BitOf(Shifted(v, i), j) == (8 * i + j > 0 && Elem(v)[8 * i + j - 1])
  {
    BitOfShift(v[i], if i == 0 then 0 else v[i - 1], j);
    NoBits(7);
    hide BitOf, Elem;
    if j > 0 {
      ElemAt(v, i, j - 1);
    } else if i > 0 {
      ElemAt(v, i - 1, 7);
    }
  }

  lemma NoBits(j: nat)
    requires j < 8
    ensures !BitOf(0, j)
  {
  }

  /** z ^= v */
  method XorInto(z: array<byte>, v: seq<byte>)
    requires z.Length == 16 && |v| == 16
    modifies z
    ensures forall i :: 0 <= i < 16 ==> z[i] == old(z[i]) ^ v[i]
    ensures Elem(z[..]) == Add(Elem(old(z[..])), Elem(v))
  {
    ghost var z0 := z[..];
    for k := 0 to 16
      invariant forall i :: 0 <= i < k ==> z[i] == z0[i] ^ v[i]
      invariant forall i :: k <= i < 16 ==> z[i] == z0[i]
    {
      z[k] := z[k] ^ v[k];
    }
    XoredElem(z0, v, z[..]);
  }

  lemma XoredElem(a: Block, b: Block, c: Block)
    requires forall i :: 0 <= i < 16 ==> c[i] == a[i] ^ b[i]
    ensures Elem(c) == Add(Elem(a), Elem(b))
  {
    hide BitOf, Elem;
    forall i, j | 0 <= i < 16 && 0 <= j < 8
      ensures Coefficient(Elem(c), i, j) == Coefficient(Add(Elem(a), Elem(b)), i, j)
    {
      ElemAt(a, i, j);
      ElemAt(b, i, j);
      ElemAt(c, i, j);
      BitOfXor(a[i], b[i], j);
    }
    ElementExtensionality(Elem(c), Add(Elem(a), Elem(b)));
  }

  /** One bit of a: z takes v if the bit is set, and v moves on to the next power of x. */
  method MulBit(x: byte, bit: nat, z: array<byte>, v: array<byte>, ghost p: Poly)
    requires z.Length == v.Length == 16 && z != v && bit < 8
    requires p != [] && p[0] == BitOf(x, 7 - bit)
    modifies z, v
    ensures Add(Elem(z[..]), Times(p[1..], Elem(v[..]))) == Add(Elem(old(z[..])), Times(p, Elem(old(v[..]))))
  {
    hide BitOf, Elem, TimesX, Add, Zero, Times;
    BitTest(x, bit);
    ghost var ez, ev := Elem(z[..]), Elem(v[..]);
    if (x >> bit) & 1 == 1 {
      XorInto(z, v[..]);
    }
    ShiftRight(v);
    MulStep(p, ez, ev);
  }

  /** One byte of a, top bit first. */
  method MulByte(x: byte, z: array<byte>, v: array<byte>, ghost p: Poly)
    requires z.Length == v.Length == 16 && z != v
    requires |p| >= 8 && forall j :: 0 <= j < 8 ==> p[j] == BitOf(x, j)
    modifies z, v
    ensures Add(Elem(z[..]), Times(p[8..], Elem(v[..]))) == Add(Elem(old(z[..])), Times(p, Elem(old(v[..]))))
  {
    hide BitOf, Elem, TimesX, Add, Zero, Times;
    assert p[0..] == p;
    for j := 0 to 8
      invariant Add(Elem(z[..]), Times(p[j..], Elem(v[..]))) == Add(Elem(old(z[..])), Times(p, Elem(old(v[..]))))
    {
      assert p[j..][1..] == p[j + 1..];
      MulBit(x, 7 - j, z, v, p[j..]);
    }
  }

  /** out := a * b.  The bits of `a` are read first to last while v runs through b, bx, bx^2, ... */
  method Gf128MulSw(a: seq<byte>, b: seq<byte>, out: array<byte>)
    requires |a| == 16 && |b| == 16 && out.Length == 16
    modifies out
    ensures Elem(out[..]) == Mul(Elem(a), Elem(b))
  {
    hide BitOf, Elem, TimesX, Add, Zero, Times;
    ghost var ea, product := Elem(a), Mul(Elem(a), Elem(b));
    var v, z := new byte[16](_ => 0), new byte[16](_ => 0);
    CopyBlock(v, b);
    ZeroBlock(z[..]);
    AddNothing(Times(ea, Elem(b)));
    assert ea[0..] == ea;
    for i := 0 to 16
      invariant product == Add(Elem(z[..]), Times(ea[8 * i..], Elem(v[..])))
    {
      ghost var p := ea[8 * i..];
      ByteOfElement(a, i);
      MulByte(a[i], z, v, p);
      assert p[8..] == ea[8 * (i + 1)..];
    }
    assert ea[128..] == [];
    TimesNothing(Elem(v[..]));
    AddNothing(Elem(z[..]));
    CopyBlock(out, z[..]);
  }

  lemma ByteOfElement(a: Block, i: nat)
    requires i < 16
    ensures forall j :: 0 <= j < 8 ==> Elem(a)[8 * i..][j] == BitOf(a[i], j)
  {
    forall j | 0 <= j < 8
      ensures Elem(a)[8 * i..][j] == BitOf(a[i], j)
    {
      assert Elem(a)[8 * i..][j] == Elem(a)[8 * i + j];
      ElemAt(a, i, j);
    }
  }

  lemma TimesNothing(b: Element)
    ensures Times([], b) == Zero()
  {
  }

  /** memcpy of one block */
  method CopyBlock(dst: array<byte>, src: seq<byte>)
    requires dst.Length == 16 && |src| == 16
    modifies dst
    ensures dst[..] == src
  {
    for i := 0 to 16
      invariant dst[..i] == src[..i]
    {
      dst[i] := src[i];
    }
    assert dst[..16] == dst[..] && src[..16] == src;
  }

  lemma ZeroBlock(z: Block)
    requires forall k :: 0 <= k < 16 ==> z[k] == 0
    ensures Elem(z) == Zero()
  {
    forall k | 0 <= k < 128
      ensures Elem(z)[k] == Zero()[k]
    {
      NoBits(k % 8);
    }
  }

  lemma AddNothing(e: Element)
    ensures Add(Zero(), e) == e && Add(e, Zero()) == e
  {
  }

  /** One bit of a: what is left to add is one term less, with v one power of x further. */
  lemma MulStep(p: Poly, z: Element, v: Element)
    requires p != []
    ensures Add(z, Times(p, v)) == Add(if p[0] then Add(z, v) else z, Times(p[1..], TimesX(v)))
  {
    var rest := TimesX(Times(p[1..], v));
    TimesTimesX(p[1..], v);
    assert Times(p, v) == Add(if p[0] then v else Zero(), rest);
    hide Times, TimesX;
    if p[0] {
      AddAssociative(z, v, rest);
    } else {
      AddNothing(rest);
    }
  }

  lemma AddAssociative(a: Element, b: Element, c: Element)
    ensures Add(Add(a, b), c) == Add(a, Add(b, c))
  {
  }
}
