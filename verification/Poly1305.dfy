/** The Poly1305 authenticator in five 26-bit limbs: src/advanced/secure_channel_crypto.cpp, lines 1352-1459,
    and how it relates to section 2.5 of RFC 8439. */
module Poly1305 {
  import opened Machine
  import opened Limbs

  const Q: int := 0x3_ffff_ffff_ffff_ffff_ffff_ffff_ffff_fffb // 2^130 - 5
  const TWO_128: int := 0x1_0000_0000_0000_0000_0000_0000_0000_0000

  // ------------------------------------------------------------ what is computed

  /** Bytes 3, 7, 11, 15 lose their top four bits; bytes 4, 8, 12 their bottom two. */
  function Clamp(r: seq<byte>): (c: seq<byte>)
    requires |r| == 16
    ensures |c| == 16
  {
    r[3 := r[3] & 0x0f][7 := r[7] & 0x0f][11 := r[11] & 0x0f][15 := r[15] & 0x0f]
     [4 := r[4] & 0xfc][8 := r[8] & 0xfc][12 := r[12] & 0xfc]
  }

  /** A chunk with the 1-bit appended; in a full chunk that bit weighs `full`. */
  function BlockValue(chunk: seq<byte>, full: nat): nat {
    LE(chunk) + if |chunk| < 16 then Pow2(8 * |chunk|) else full
  }

  /** Horner evaluation of the blocks of msg at r modulo 2^130 - 5, starting from h. */
  function Accumulate(msg: seq<byte>, r: nat, h: int, full: nat): int
    decreases |msg|
  {
    if msg == [] then h
    else
      var n := Min(16, |msg|);
      Accumulate(msg[n..], r, ((h + BlockValue(msg[..n], full)) * r) % Q, full)
  }

  function Tag(key: seq<byte>, msg: seq<byte>, full: nat): int
    requires |key| == 32
  {
    (Accumulate(msg, LE(Clamp(key[..16])), 0, full) + LE(key[16..])) % TWO_128
  }

  /** RFC 8439 puts the 1-bit of a full block just above its 16 bytes. */
  const RFC_PAD: nat := 0x1_0000_0000_0000_0000_0000_0000_0000_0000
  /** Line 1404 adds t4 << 18 to limb 4, which weighs 2^104. */
  const CODE_PAD: nat := 0x400_0000_0000_0000_0000_0000_0000_0000

  // ------------------------------------------------------------ five limbs

  datatype Five = Five(a0: uint64, a1: uint64, a2: uint64, a3: uint64, a4: uint64)

  function Val5(h: Five): int {
    h.a0 + 0x400_0000 * h.a1 + 0x10_0000_0000_0000 * h.a2 + 0x4000_0000_0000_0000_0000 * h.a3
    + 0x100_0000_0000_0000_0000_0000_0000 * h.a4
  }

  /** What the message loop keeps: every limb is 26-bit, up to a small excess in limb 1. */
  predicate Loose(h: Five) {
    h.a0 < 0x400_0000 && h.a1 < 0x400_0000 + 0x400 && h.a2 < 0x400_0000 && h.a3 < 0x400_0000 && h.a4 < 0x400_0000
  }

  predicate Tight(h: Five) {
    h.a0 < 0x400_0000 && h.a1 < 0x400_0000 && h.a2 < 0x400_0000 && h.a3 < 0x400_0000 && h.a4 < 0x400_0000
  }

  /** A little-endian 32-bit load. */
  function Load32(b: seq<byte>, i: nat): (t: uint32)
    requires i + 4 <= |b|
  {
    b[i] as int + 0x100 * (b[i + 1] as int) + 0x1_0000 * (b[i + 2] as int) + 0x100_0000 * (b[i + 3] as int)
  }

  lemma Load32Is(b: seq<byte>, i: nat)
    requires i + 4 <= |b|
    ensures LE(b[i..i + 4]) == Load32(b, i)
  {
    FourBytes(b[i..i + 4]);
    assert b[i..i + 4][4..] == [];
  }

  lemma Load32IsLE(b: seq<byte>)
    requires |b| == 16
    ensures LE(b) == Load32(b, 0) + 0x1_0000_0000 * Load32(b, 4) + 0x1_0000_0000_0000_0000 * Load32(b, 8)
                     + 0x1_0000_0000_0000_0000_0000_0000 * Load32(b, 12)
  {
    FourBytes(b);
    FourBytes(b[4..]);
    FourBytes(b[8..]);
    FourBytes(b[12..]);
    assert b[4..][4..] == b[8..] && b[8..][4..] == b[12..] && b[12..][4..] == [];
  }

  lemma FourBytes(b: seq<byte>)
    requires 4 <= |b|
    ensures LE(b) == Load32(b, 0) + 0x1_0000_0000 * LE(b[4..])
  {
    assert b[1..][1..] == b[2..] && b[2..][1..] == b[3..] && b[3..][1..] == b[4..];
    assert LE(b) == b[0] as int + 0x100 * LE(b[1..]);
    assert LE(b[1..]) == b[1] as int + 0x100 * LE(b[2..]);
    assert LE(b[2..]) == b[2] as int + 0x100 * LE(b[3..]);
    assert LE(b[3..]) == b[3] as int + 0x100 * LE(b[4..]);
  }

  /** Four 32-bit words regrouped into five 26-bit limbs. */
  method Decode(b: seq<byte>) returns (r: Five)
    requires |b| == 16
    ensures Tight(r) && Val5(r) == LE(b) && r.a4 < 0x100_0000
  {
    hide LE, Or;
    hide Load32;
    Load32IsLE(b);
    var t0 := Load(b, 0, 4);
    var t1 := Load(b, 4, 4);
    var t2 := Load(b, 8, 4);
    var t3 := Load(b, 12, 4);
    Load32Is(b, 0);
    Load32Is(b, 4);
    Load32Is(b, 8);
    Load32Is(b, 12);
    RegroupNoOverlap(t0, t1, t2, t3);
    var r1: uint64 := Or(t0 / 0x400_0000, t1 * 0x40) % 0x400_0000;
    var r2: uint64 := Or(t1 / 0x10_0000, t2 * 0x1000) % 0x400_0000;
    var r3: uint64 := Or(t2 / 0x4000, t3 * 0x4_0000) % 0x400_0000;
    var r4: uint64 := t3 / 0x100 % 0x400_0000;
    r := Five(t0 % 0x400_0000, r1, r2, r3, r4);
    Regroup(t0, t1, t2, t3, r);
  }

  /** The ORs of the decoder combine disjoint bit ranges. */
  lemma RegroupNoOverlap(t0: uint32, t1: uint32, t2: uint32, t3: uint32)
    ensures Or(t0 / 0x400_0000, t1 * 0x40) == t0 / 0x400_0000 + t1 * 0x40
    ensures Or(t1 / 0x10_0000, t2 * 0x1000) == t1 / 0x10_0000 + t2 * 0x1000
    ensures Or(t2 / 0x4000, t3 * 0x4_0000) == t2 / 0x4000 + t3 * 0x4_0000
  {
    assert Pow2(6) == 0x40;
    Pow2Add(6, 6);
    Pow2Add(12, 6);
    OrIsAdd(t0 / 0x400_0000, t1, 6);
    OrIsAdd(t1 / 0x10_0000, t2, 12);
    OrIsAdd(t2 / 0x4000, t3, 18);
  }

  lemma Regroup(t0: uint32, t1: uint32, t2: uint32, t3: uint32, r: Five)
    requires r.a0 == t0 % 0x400_0000 && r.a1 == (t0 / 0x400_0000 + t1 * 0x40) % 0x400_0000
    requires r.a2 == (t1 / 0x10_0000 + t2 * 0x1000) % 0x400_0000
    requires r.a3 == (t2 / 0x4000 + t3 * 0x4_0000) % 0x400_0000 && r.a4 == t3 / 0x100 % 0x400_0000
    ensures Tight(r) && r.a4 < 0x100_0000
    ensures Val5(r) == t0 + 0x1_0000_0000 * t1 + 0x1_0000_0000_0000_0000 * t2
                       + 0x1_0000_0000_0000_0000_0000_0000 * t3
  {
    var a, b, c := t0 / 0x400_0000, t1 / 0x10_0000, t2 / 0x4000;
    var d := t3 / 0x100;
    DivModUnique(a + t1 * 0x40, 0x400_0000, b, a + 0x40 * (t1 % 0x10_0000));
    DivModUnique(b + t2 * 0x1000, 0x400_0000, c, b + 0x1000 * (t2 % 0x4000));
    DivModUnique(c + t3 * 0x4_0000, 0x400_0000, d, c + 0x4_0000 * (t3 % 0x100));
    RegroupSum(t0, t1, t2, t3, r);
  }

  lemma RegroupSum(t0: uint32, t1: uint32, t2: uint32, t3: uint32, r: Five)
    requires r.a0 == t0 % 0x400_0000 && r.a1 == t0 / 0x400_0000 + 0x40 * (t1 % 0x10_0000)
    requires r.a2 == t1 / 0x10_0000 + 0x1000 * (t2 % 0x4000) && r.a3 == t2 / 0x4000 + 0x4_0000 * (t3 % 0x100)
    requires r.a4 == t3 / 0x100
    ensures Val5(r) == t0 + 0x1_0000_0000 * t1 + 0x1_0000_0000_0000_0000 * t2
                       + 0x1_0000_0000_0000_0000_0000_0000 * t3
  {
  }

  // ------------------------------------------------------------ one block

  /** The schoolbook product with 2^130 read as 5 differs from the true product by a multiple of 2^130 - 5. */
  lemma Schoolbook(h: Five, r: Five)
    ensures var d0 := h.a0*r.a0 + h.a1*(5*r.a4) + h.a2*(5*r.a3) + h.a3*(5*r.a2) + h.a4*(5*r.a1);
            var d1 := h.a0*r.a1 + h.a1*r.a0 + h.a2*(5*r.a4) + h.a3*(5*r.a3) + h.a4*(5*r.a2);
            var d2 := h.a0*r.a2 + h.a1*r.a1 + h.a2*r.a0 + h.a3*(5*r.a4) + h.a4*(5*r.a3);
            var d3 := h.a0*r.a3 + h.a1*r.a2 + h.a2*r.a1 + h.a3*r.a0 + h.a4*(5*r.a4);
            var d4 := h.a0*r.a4 + h.a1*r.a3 + h.a2*r.a2 + h.a3*r.a1 + h.a4*r.a0;
      Val5(h) * Val5(r) == Columns(d0, d1, d2, d3, d4) + Q * Wrapped(h, r)
  {
    Expand(h, Val5(r));
    Expand(r, h.a0);
    Expand(r, h.a1);
    Expand(r, h.a2);
    Expand(r, h.a3);
    Expand(r, h.a4);
    FiveTimes(h.a1, r.a4);
    FiveTimes(h.a2, r.a3);
    FiveTimes(h.a2, r.a4);
    FiveTimes(h.a3, r.a2);
    FiveTimes(h.a3, r.a3);
    FiveTimes(h.a3, r.a4);
    FiveTimes(h.a4, r.a1);
    FiveTimes(h.a4, r.a2);
    FiveTimes(h.a4, r.a3);
    FiveTimes(h.a4, r.a4);
    hide Val5;
  }

  lemma Expand(h: Five, x: int)
    ensures Val5(h) * x == h.a0 * x + 0x400_0000 * (h.a1 * x) + 0x10_0000_0000_0000 * (h.a2 * x)
                           + 0x4000_0000_0000_0000_0000 * (h.a3 * x)
                           + 0x100_0000_0000_0000_0000_0000_0000 * (h.a4 * x)
  {
  }

  lemma FiveTimes(x: int, y: int)
    ensures x * (5 * y) == 5 * (x * y)
  {
  }

  function Columns(d0: int, d1: int, d2: int, d3: int, d4: int): int {
    d0 + 0x400_0000 * d1 + 0x10_0000_0000_0000 * d2 + 0x4000_0000_0000_0000_0000 * d3
    + 0x100_0000_0000_0000_0000_0000_0000 * d4
  }

  function Wrapped(h: Five, r: Five): int {
    (h.a1*r.a4 + h.a2*r.a3 + h.a3*r.a2 + h.a4*r.a1) + 0x400_0000 * (h.a2*r.a4 + h.a3*r.a3 + h.a4*r.a2)
    + 0x10_0000_0000_0000 * (h.a3*r.a4 + h.a4*r.a3) + 0x4000_0000_0000_0000_0000 * (h.a4*r.a4)
  }

  /** No column leaves 64 bits. */
  lemma ColumnRange(x0: int, y0: int, x1: int, y1: int, x2: int, y2: int, x3: int, y3: int, x4: int, y4: int)
    requires 0 <= x0 < 0x1000_0000 && 0 <= x1 < 0x1000_0000 && 0 <= x2 < 0x1000_0000 && 0 <= x3 < 0x1000_0000
    requires 0 <= x4 < 0x1000_0000
    requires 0 <= y0 < 0x1400_0000 && 0 <= y1 < 0x1400_0000 && 0 <= y2 < 0x1400_0000 && 0 <= y3 < 0x1400_0000
    requires 0 <= y4 < 0x1400_0000
    ensures 0 <= x0*y0 + x1*y1 + x2*y2 + x3*y3 + x4*y4 < 0x800_0000_0000_0000
  {
    ProductRange(x0, y0);
    ProductRange(x1, y1);
    ProductRange(x2, y2);
    ProductRange(x3, y3);
    ProductRange(x4, y4);
  }

  lemma ProductRange(x: int, y: int)
    requires 0 <= x < 0x1000_0000 && 0 <= y < 0x1400_0000
    ensures 0 <= x * y <= 0x140_0000_0000_0000
  {
    MulMono(0, x, y);
    MulMono(x, 0x1000_0000, y);
  }

  /** h := h * r modulo 2^130 - 5, limb carries included; `h` already has the block added. */
  method MultiplyReduce(h: Five, r: Five) returns (h': Five)
    requires h.a0 < 0x1000_0000 && h.a1 < 0x1000_0000 && h.a2 < 0x1000_0000 && h.a3 < 0x1000_0000 && h.a4 < 0x1000_0000
    requires Tight(r)
    ensures Loose(h')
    ensures Val5(h') % Q == (Val5(h) * Val5(r)) % Q
  {
    hide Val5, Columns, Wrapped;
    var d0, d1, d2, d3, d4 := ProductColumns(h, r);
    ghost var wrapped := Wrapped(h, r);
    ghost var c;
    h', c := Propagate(d0, d1, d2, d3, d4);
    TwoWraps(Val5(h'), Val5(h) * Val5(r), Columns(d0, d1, d2, d3, d4), wrapped, c);
  }

  /** The five columns of the product, none of which leaves 64 bits. */
  method ProductColumns(h: Five, r: Five) returns (d0: uint64, d1: uint64, d2: uint64, d3: uint64, d4: uint64)
    requires h.a0 < 0x1000_0000 && h.a1 < 0x1000_0000 && h.a2 < 0x1000_0000 && h.a3 < 0x1000_0000 && h.a4 < 0x1000_0000
    requires Tight(r)
    ensures d0 < 0x800_0000_0000_0000 && d1 < 0x800_0000_0000_0000 && d2 < 0x800_0000_0000_0000
    ensures d3 < 0x800_0000_0000_0000 && d4 < 0x800_0000_0000_0000
    ensures Val5(h) * Val5(r) == Columns(d0, d1, d2, d3, d4) + Q * Wrapped(h, r)
  {
    hide Val5, Columns, Wrapped;
    var s1: uint64, s2: uint64, s3: uint64, s4: uint64 := r.a1 * 5, r.a2 * 5, r.a3 * 5, r.a4 * 5;
    ColumnRange(h.a0, r.a0, h.a1, s4, h.a2, s3, h.a3, s2, h.a4, s1);
    ColumnRange(h.a0, r.a1, h.a1, r.a0, h.a2, s4, h.a3, s3, h.a4, s2);
    ColumnRange(h.a0, r.a2, h.a1, r.a1, h.a2, r.a0, h.a3, s4, h.a4, s3);
    ColumnRange(h.a0, r.a3, h.a1, r.a2, h.a2, r.a1, h.a3, r.a0, h.a4, s4);
    ColumnRange(h.a0, r.a4, h.a1, r.a3, h.a2, r.a2, h.a3, r.a1, h.a4, r.a0);
    d0 := h.a0*r.a0 + h.a1*s4 + h.a2*s3 + h.a3*s2 + h.a4*s1;
    d1 := h.a0*r.a1 + h.a1*r.a0 + h.a2*s4 + h.a3*s3 + h.a4*s2;
    d2 := h.a0*r.a2 + h.a1*r.a1 + h.a2*r.a0 + h.a3*s4 + h.a4*s3;
    d3 := h.a0*r.a3 + h.a1*r.a2 + h.a2*r.a1 + h.a3*r.a0 + h.a4*s4;
    d4 := h.a0*r.a4 + h.a1*r.a3 + h.a2*r.a2 + h.a3*r.a1 + h.a4*r.a0;
    SchoolbookOf(h, r, s1, s2, s3, s4);
  }

  /** Schoolbook, with five times each limb of r at hand. */
  lemma SchoolbookOf(h: Five, r: Five, s1: int, s2: int, s3: int, s4: int)
    requires s1 == r.a1 * 5 && s2 == r.a2 * 5 && s3 == r.a3 * 5 && s4 == r.a4 * 5
    ensures Val5(h) * Val5(r) == Columns(
      h.a0*r.a0 + h.a1*s4 + h.a2*s3 + h.a3*s2 + h.a4*s1,
      h.a0*r.a1 + h.a1*r.a0 + h.a2*s4 + h.a3*s3 + h.a4*s2,
      h.a0*r.a2 + h.a1*r.a1 + h.a2*r.a0 + h.a3*s4 + h.a4*s3,
      h.a0*r.a3 + h.a1*r.a2 + h.a2*r.a1 + h.a3*r.a0 + h.a4*s4,
      h.a0*r.a4 + h.a1*r.a3 + h.a2*r.a2 + h.a3*r.a1 + h.a4*r.a0) + Q * Wrapped(h, r)
  {
    hide Val5, Columns, Wrapped;
    Schoolbook(h, r);
    assert s1 == 5 * r.a1 && s2 == 5 * r.a2 && s3 == 5 * r.a3 && s4 == 5 * r.a4;
  }

  lemma TwoWraps(x: int, y: int, columns: int, k: int, c: int)
    requires y == columns + Q * k && columns == x + Q * c
    ensures x % Q == y % Q
  {
    CongruentModQ(x, y, k + c);
  }

  lemma CongruentModQ(x: int, y: int, k: int)
    requires y == x + Q * k
    ensures x % Q == y % Q
  {
    var q, r := x / Q, x % Q;
    assert y == Q * (q + k) + r;
    DivModUnique(y, Q, q + k, r);
  }

  method Propagate(c0: uint64, c1: uint64, c2: uint64, c3: uint64, c4: uint64) returns (h: Five, ghost wraps: int)
    requires c0 < 0x800_0000_0000_0000 && c1 < 0x800_0000_0000_0000 && c2 < 0x800_0000_0000_0000
    requires c3 < 0x800_0000_0000_0000 && c4 < 0x800_0000_0000_0000
    ensures Loose(h)
    ensures Columns(c0, c1, c2, c3, c4) == Val5(h) + Q * wraps
  {
    var d1: uint64, d2: uint64, d3: uint64, d4: uint64 := c1, c2, c3, c4;
    var c: uint64 := c0 / 0x400_0000;
    var h0: uint64 := c0 % 0x400_0000;
    d1 := d1 + c;
    c := d1 / 0x400_0000;
    var h1: uint64 := d1 % 0x400_0000;
    d2 := d2 + c;
    c := d2 / 0x400_0000;
    var h2: uint64 := d2 % 0x400_0000;
    d3 := d3 + c;
    c := d3 / 0x400_0000;
    var h3: uint64 := d3 % 0x400_0000;
    d4 := d4 + c;
    c := d4 / 0x400_0000;
    var h4: uint64 := d4 % 0x400_0000;
    wraps := c;
    h0 := h0 + c * 5;
    c := h0 / 0x400_0000;
    h0 := h0 % 0x400_0000;
    h1 := h1 + c;
    h := Five(h0, h1, h2, h3, h4);
  }

  // ------------------------------------------------------------ the message loop

  /** One turn of the loop: h := (h + block) * r. */
  method AbsorbBlock(h: Five, r: Five, chunk: seq<byte>) returns (h': Five)
    requires Loose(h) && Tight(r) && 0 < |chunk| <= 16
    ensures Loose(h')
    ensures Val5(h') % Q == ((Val5(h) + BlockValue(chunk, CODE_PAD)) * Val5(r)) % Q
  {
    hide LE, Val5, BlockValue, Pow2;
    var block: seq<byte> := chunk + [1] + seq(16 - |chunk|, _ => 0); // 17 bytes
    PaddedBlock(chunk, block);
    var t4: uint64 := block[16] as int;
    var m := Decode(block[..16]);
    var sum := Five(h.a0 + m.a0, h.a1 + m.a1, h.a2 + m.a2, h.a3 + m.a3, h.a4 + m.a4 + t4 * 0x4_0000);
    LimbSum(h, m, t4, sum);
    BlockParts(chunk);
    h' := MultiplyReduce(sum, r);
  }

  /** Adding limb by limb, with the pad bit in limb 4. */
  lemma LimbSum(h: Five, m: Five, t4: uint64, sum: Five)
    requires sum.a0 == h.a0 + m.a0 && sum.a1 == h.a1 + m.a1 && sum.a2 == h.a2 + m.a2 && sum.a3 == h.a3 + m.a3
    requires sum.a4 == h.a4 + m.a4 + t4 * 0x4_0000
    ensures Val5(sum) == Val5(h) + Val5(m) + t4 * CODE_PAD
  {
  }

  lemma BlockParts(chunk: seq<byte>)
    requires 0 < |chunk| <= 16
    ensures BlockValue(chunk, CODE_PAD) == LE(chunk) + if |chunk| == 16 then CODE_PAD else Pow2(8 * |chunk|)
  {
    hide LE, Pow2;
  }

  lemma PaddedBlock(chunk: seq<byte>, block: seq<byte>)
    requires 0 < |chunk| <= 16 && block == chunk + [1] + seq(16 - |chunk|, _ => 0)
    ensures |block| == 17 && (block[16] as int) == if |chunk| == 16 then 1 else 0
    ensures LE(block[..16]) == LE(chunk) + if |chunk| == 16 then 0 else Pow2(8 * |chunk|)
  {
    hide LE, Pow2;
    if |chunk| == 16 {
      assert block[..16] == chunk;
    } else {
      var zeros := block[|chunk| + 1..16];
      assert block[..16] == chunk + ([1] + zeros);
      PaddedValue(chunk, zeros);
    }
  }

  lemma PaddedValue(chunk: seq<byte>, zeros: seq<byte>)
    requires forall i :: 0 <= i < |zeros| ==> zeros[i] == 0
    ensures LE(chunk + ([1] + zeros)) == LE(chunk) + Pow2(8 * |chunk|)
  {
    var rest := [1] + zeros;
    assert rest[1..] == zeros;
    LEZeros(zeros);
    assert LE(rest) == 1;
    hide LE, Pow2;
    LEConcat(chunk, rest);
  }

  /** Replacing h by something congruent to it does not change the final residue. */
  lemma {:induction false} AccumulateCongruent(msg: seq<byte>, r: nat, h: int, h': int, full: nat)
    requires h % Q == h' % Q
    ensures Accumulate(msg, r, h, full) % Q == Accumulate(msg, r, h', full) % Q
    ensures msg != [] ==> Accumulate(msg, r, h, full) == Accumulate(msg, r, h', full)
  {
    if msg != [] {
      var n := Min(16, |msg|);
      StepCongruent(h, h', BlockValue(msg[..n], full), r);
    }
  }

  lemma StepCongruent(h: int, h': int, b: int, r: int)
    requires h % Q == h' % Q
    ensures ((h + b) * r) % Q == ((h' + b) * r) % Q
  {
    var k := h / Q - h' / Q;
    assert h == h' + Q * k;
    assert (h + b) * r == (h' + b) * r + Q * (k * r) by {
      MulDistrib(h' + b, Q * k, r);
      MulAssoc(Q, k, r);
    }
    CongruentModQ((h' + b) * r, (h + b) * r, k * r);
  }

  // ------------------------------------------------------------ the final reduction

  /** The carry chain after the loop leaves every limb within 26 bits. */
  method FinalCarry(h: Five) returns (g: Five)
    requires Loose(h)
    ensures Tight(g) && Val5(g) % Q == Val5(h) % Q
  {
    hide Val5;
    var h0: uint64, h1: uint64, h2: uint64, h3: uint64, h4: uint64 := h.a0, h.a1, h.a2, h.a3, h.a4;
    var c: uint64 := h1 / 0x400_0000;
    h1 := h1 % 0x400_0000;
    h2 := h2 + c;
    ghost var c1 := c;
    c := h2 / 0x400_0000;
    h2 := h2 % 0x400_0000;
    h3 := h3 + c;
    ghost var c2 := c;
    c := h3 / 0x400_0000;
    h3 := h3 % 0x400_0000;
    h4 := h4 + c;
    ghost var c3 := c;
    c := h4 / 0x400_0000;
    h4 := h4 % 0x400_0000;
    ghost var c4 := c;
    h0 := h0 + c * 5;
    c := h0 / 0x400_0000;
    h0 := h0 % 0x400_0000;
    h1 := h1 + c;
    g := Five(h0, h1, h2, h3, h4);
    FinalCarrySum(h, g, c1, c2, c3, c4, c);
    CongruentModQ(Val5(g), Val5(h), c4);
  }

  /** Each carry moves 2^26 of one limb to the next, and the last comes back to limb 0 as 5 for 2^130. */
  lemma FinalCarrySum(h: Five, g: Five, c1: int, c2: int, c3: int, c4: int, c0: int)
    requires g.a0 == h.a0 + 5 * c4 - 0x400_0000 * c0 && g.a1 == h.a1 - 0x400_0000 * c1 + c0
    requires g.a2 == h.a2 + c1 - 0x400_0000 * c2 && g.a3 == h.a3 + c2 - 0x400_0000 * c3
    requires g.a4 == h.a4 + c3 - 0x400_0000 * c4
    ensures Val5(h) == Val5(g) + Q * c4
  {
  }

  /** Word selection by an all-ones or all-zeros mask. */
  function Select(mask: uint64, whenSet: uint64, whenClear: uint64): nat {
    Or(And(Complement(mask), whenClear), And(mask, whenSet))
  }

  function Complement(w: uint64): uint64 { TWO_64 - 1 - w }

  lemma SelectWorks(x: uint64, y: uint64)
    ensures Select(TWO_64 - 1, x, y) == x
    ensures Select(0, x, y) == y
  {
    Pow2At64();
    AndOnes(x, 64);
    AndOnes(y, 64);
    OrZeroRight(y);
  }

  lemma {:induction false} OrZeroRight(x: nat)
    ensures Or(x, 0) == x
  {
    if x != 0 {
      OrZeroRight(x / 2);
    }
  }

  /** Subtracts 2^130 - 5 once if that does not go below zero: h + 5 - 2^130 in wrapping 64-bit limbs. */
  method SubtractQ(h: Five) returns (g: Five)
    requires Tight(h)
    ensures Tight(g) && Val5(g) == Val5(h) % Q
  {
    var g0: uint64 := h.a0 + 5;
    var c: uint64 := g0 / 0x400_0000;
    g0 := g0 % 0x400_0000;
    var g1: uint64 := h.a1 + c;
    c := g1 / 0x400_0000;
    g1 := g1 % 0x400_0000;
    var g2: uint64 := h.a2 + c;
    c := g2 / 0x400_0000;
    g2 := g2 % 0x400_0000;
    var g3: uint64 := h.a3 + c;
    c := g3 / 0x400_0000;
    g3 := g3 % 0x400_0000;
    var top: uint64 := h.a4 + c;
    var g4, mask := TopLimb(top); // g4 wraps when h is below 2^130 - 5
    hide Select;
    SelectWorks(g0, h.a0);
    SelectWorks(g1, h.a1);
    SelectWorks(g2, h.a2);
    SelectWorks(g3, h.a3);
    SelectWorks(g4, h.a4);
    g := Five(Select(mask, g0, h.a0), Select(mask, g1, h.a1), Select(mask, g2, h.a2), Select(mask, g3, h.a3),
              Select(mask, g4, h.a4));
    if top < 0x400_0000 {
      assert g == h;
      DivModUnique(Val5(h), Q, 0, Val5(h));
    } else {
      assert Val5(g) == Val5(h) - Q;
      DivModUnique(Val5(h), Q, 1, Val5(g));
    }
  }

  /** top - 2^26 in wrapping arithmetic, and the mask read off its sign bit: all ones if top >= 2^26. */
  method TopLimb(top: uint64) returns (g4: uint64, mask: uint64)
    requires top <= 0x400_0000
    ensures mask == if top < 0x400_0000 then 0 else TWO_64 - 1
    ensures top == 0x400_0000 ==> g4 == 0
  {
    g4 := (top - 0x400_0000) % TWO_64;
    var sign := g4 / 0x8000_0000_0000_0000;
    assert sign == if top < 0x400_0000 then 1 else 0;
    mask := (-sign) % TWO_64;
    assert mask == if sign == 1 then TWO_64 - 1 else 0;
    mask := Complement(mask);
  }

  // ------------------------------------------------------------ the tag

  /** The low 128 bits of five limbs as two words. */
  method Words(h: Five) returns (lo: uint64, hi: uint64)
    requires Tight(h)
    ensures lo + TWO_64 * hi == Val5(h) % TWO_128
  {
    WordsNoOverlap(h);
    lo := Or(Or(h.a0, h.a1 * 0x400_0000), (h.a2 * 0x10_0000_0000_0000) % TWO_64);
    hi := Or(Or(h.a2 / 0x1000, h.a3 * 0x4000), (h.a4 * 0x100_0000_0000) % TWO_64);
    WordsValue(h);
  }

  lemma WordsNoOverlap(h: Five)
    requires Tight(h)
    ensures (h.a2 * 0x10_0000_0000_0000) % TWO_64 == (h.a2 % 0x1000) * 0x10_0000_0000_0000
    ensures (h.a4 * 0x100_0000_0000) % TWO_64 == (h.a4 % 0x100_0000) * 0x100_0000_0000
    ensures Or(Or(h.a0, h.a1 * 0x400_0000), (h.a2 % 0x1000) * 0x10_0000_0000_0000)
            == h.a0 + h.a1 * 0x400_0000 + (h.a2 % 0x1000) * 0x10_0000_0000_0000
    ensures Or(Or(h.a2 / 0x1000, h.a3 * 0x4000), (h.a4 % 0x100_0000) * 0x100_0000_0000)
            == h.a2 / 0x1000 + h.a3 * 0x4000 + (h.a4 % 0x100_0000) * 0x100_0000_0000
  {
    DivModUnique(h.a2 * 0x10_0000_0000_0000, TWO_64, h.a2 / 0x1000, (h.a2 % 0x1000) * 0x10_0000_0000_0000);
    DivModUnique(h.a4 * 0x100_0000_0000, TWO_64, h.a4 / 0x100_0000, (h.a4 % 0x100_0000) * 0x100_0000_0000);
    Pow2At64();
    Pow2Add(26, 26);
    assert Pow2(7) == 0x80;
    Pow2Add(7, 7);
    Pow2Add(14, 26);
    OrIsAdd(h.a0, h.a1, 26);
    OrIsAdd(h.a0 + h.a1 * 0x400_0000, h.a2 % 0x1000, 52);
    OrIsAdd(h.a2 / 0x1000, h.a3, 14);
    OrIsAdd(h.a2 / 0x1000 + h.a3 * 0x4000, h.a4 % 0x100_0000, 40);
  }

  lemma WordsValue(h: Five)
    requires Tight(h)
    ensures h.a0 + h.a1 * 0x400_0000 + (h.a2 % 0x1000) * 0x10_0000_0000_0000
            + TWO_64 * (h.a2 / 0x1000 + h.a3 * 0x4000 + (h.a4 % 0x100_0000) * 0x100_0000_0000) == Val5(h) % TWO_128
  {
    var low := h.a0 + h.a1 * 0x400_0000 + (h.a2 % 0x1000) * 0x10_0000_0000_0000
               + TWO_64 * (h.a2 / 0x1000 + h.a3 * 0x4000 + (h.a4 % 0x100_0000) * 0x100_0000_0000);
    DivModUnique(Val5(h), TWO_128, h.a4 / 0x100_0000, low);
  }

  method Store64(w: uint64, tag: array<byte>, at: nat)
    requires at + 8 <= tag.Length
    modifies tag
    ensures tag[at..at + 8] == Bytes(w, 8)
    ensures tag[..at] == old(tag[..at]) && tag[at + 8..] == old(tag[at + 8..])
  {
    hide Bytes, Shr;
    for i := 0 to 8
      invariant tag[at..at + i] == Bytes(w, 8)[..i]
      invariant tag[..at] == old(tag[..at]) && tag[at + 8..] == old(tag[at + 8..])
    {
      BytesAt(w, 8, i);
      ghost var before := tag[at..at + i];
      tag[at + i] := (Shr(w, 8 * i) % 0x100) as byte;
      assert tag[at..at + i] == before;
      assert tag[at..at + (i + 1)] == before + [tag[at + i]];
      assert Bytes(w, 8)[..i + 1] == Bytes(w, 8)[..i] + [Bytes(w, 8)[i]];
    }
    assert Bytes(w, 8)[..8] == Bytes(w, 8);
  }

  /** h + s modulo 2^128, with the carry between the two words read off the wrapped sum. */
  method AddAndStore(lo: uint64, hi: uint64, s: seq<byte>, tag: array<byte>, at: nat)
    requires |s| == 16 && at + 16 <= tag.Length
    modifies tag
    ensures LE(tag[at..at + 16]) == (lo + TWO_64 * hi + LE(s)) % TWO_128
    ensures tag[..at] == old(tag[..at]) && tag[at + 16..] == old(tag[at + 16..])
  {
    hide LE, Bytes;
    var sLo := Load(s, 0, 8);
    var sHi := Load(s, 8, 8);
    assert s[0..8] == s[..8] && s[8..16] == s[8..];
    var tLo: uint64 := (lo + sLo) % TWO_64;
    var tHi: uint64 := (hi + sHi + if tLo < lo then 1 else 0) % TWO_64;
    ghost var start := tag[..];
    Store64(tLo, tag, at);
    ghost var middle := tag[..];
    Store64(tHi, tag, at + 8);
    assert tag[at..at + 8] == tag[..at + 8][at..] == middle[..at + 8][at..] == middle[at..at + 8];
    assert tag[..at] == tag[..at + 8][..at] && tag[at + 16..] == middle[at + 8..][8..];
    assert tag[at..at + 16] == Bytes(tLo, 8) + Bytes(tHi, 8);
    TagValue(lo, hi, sLo, sHi, tLo, tHi, s);
  }

  lemma TagValue(lo: uint64, hi: uint64, sLo: uint64, sHi: uint64, tLo: uint64, tHi: uint64, s: seq<byte>)
    requires |s| == 16 && sLo == LE(s[..8]) && sHi == LE(s[8..])
    requires tLo == (lo + sLo) % TWO_64 && tHi == (hi + sHi + if tLo < lo then 1 else 0) % TWO_64
    ensures LE(Bytes(tLo, 8) + Bytes(tHi, 8)) == (lo + TWO_64 * hi + LE(s)) % TWO_128
  {
    hide LE, Bytes, Pow2;
    Pow2At64();
    assert 8 * 8 == 64;
    BytesValue(tLo, 8);
    BytesValue(tHi, 8);
    LEConcat(Bytes(tLo, 8), Bytes(tHi, 8));
    assert s == s[..8] + s[8..];
    LEConcat(s[..8], s[8..]);
    WideAdd(lo, hi, sLo, sHi, tLo, tHi);
  }

  lemma WideAdd(lo: uint64, hi: uint64, sLo: uint64, sHi: uint64, tLo: uint64, tHi: uint64)
    requires tLo == (lo + sLo) % TWO_64 && tHi == (hi + sHi + if tLo < lo then 1 else 0) % TWO_64
    ensures tLo + TWO_64 * tHi == (lo + TWO_64 * hi + (sLo + TWO_64 * sHi)) % TWO_128
  {
    var carry := if tLo < lo then 1 else 0;
    CarryBit(lo, sLo, tLo);
    var over := (hi + sHi + carry) / TWO_64;
    DivModUnique(lo + TWO_64 * hi + (sLo + TWO_64 * sHi), TWO_128, over, tLo + TWO_64 * tHi);
  }

  /** A wrapped sum is below its operands exactly when it wrapped. */
  lemma CarryBit(lo: uint64, sLo: uint64, tLo: uint64)
    requires tLo == (lo + sLo) % TWO_64
    ensures lo + sLo == tLo + (if tLo < lo then TWO_64 else 0)
  {
  }

  /** The message loop and the final reduction. */
  method AbsorbAll(rBytes: seq<byte>, msg: seq<byte>) returns (h: Five)
    requires |rBytes| == 16
    ensures Tight(h) && Val5(h) == Accumulate(msg, LE(rBytes), 0, CODE_PAD)
  {
    hide LE, Accumulate, BlockValue, Val5;
    ZeroLimbs();
    var r := Decode(rBytes);
    h := Five(0, 0, 0, 0, 0);
    var pos := 0;
    ghost var target := Accumulate(msg, Val5(r), 0, CODE_PAD);
    assert msg[0..] == msg;
    while pos < |msg|
      invariant 0 <= pos <= |msg|
      invariant Loose(h)
      invariant Accumulate(msg[pos..], Val5(r), Val5(h), CODE_PAD) % Q == target % Q
    {
      var n := Min(16, |msg| - pos);
      ghost var before := Val5(h);
      h := AbsorbBlock(h, r, msg[pos..pos + n]);
      assert msg[pos..][..n] == msg[pos..pos + n] && msg[pos..][n..] == msg[pos + n..];
      AbsorbStep(msg[pos..], Val5(r), before, Val5(h));
      pos := pos + n;
    }
    assert msg[pos..] == [];
    AccumulateNothing(Val5(r), Val5(h), CODE_PAD);
    AccumulateRange(msg, Val5(r), 0, CODE_PAD);
    h := FinalCarry(h);
    h := SubtractQ(h);
  }

  lemma ZeroLimbs()
    ensures Val5(Five(0, 0, 0, 0, 0)) == 0
  {
  }

  lemma AccumulateNothing(r: nat, h: int, full: nat)
    ensures Accumulate([], r, h, full) == h
  {
  }

  /** poly1305_mac, writing its tag at offset `at` of an output buffer. */
  method Poly1305Mac(key: seq<byte>, msg: seq<byte>, tag: array<byte>, at: nat)
    requires |key| == 32 && at + 16 <= tag.Length
    modifies tag
    ensures LE(tag[at..at + 16]) == Tag(key, msg, CODE_PAD)
    ensures tag[..at] == old(tag[..at]) && tag[at + 16..] == old(tag[at + 16..])
  {
    hide LE, Accumulate, Clamp, Val5;
    var h := AbsorbAll(Clamp(key[..16]), msg);
    AccumulateRange(msg, LE(Clamp(key[..16])), 0, CODE_PAD);
    var lo, hi := Words(h);
    AddAndStore(lo, hi, key[16..], tag, at);
    SumOfResidue(Val5(h), LE(key[16..]));
  }

  lemma AbsorbStep(msg: seq<byte>, r: nat, h: int, h': int)
    requires msg != []
    requires h' % Q == ((h + BlockValue(msg[..Min(16, |msg|)], CODE_PAD)) * r) % Q
    ensures Accumulate(msg[Min(16, |msg|)..], r, h', CODE_PAD) % Q == Accumulate(msg, r, h, CODE_PAD) % Q
  {
    var n := Min(16, |msg|);
    var next := ((h + BlockValue(msg[..n], CODE_PAD)) * r) % Q;
    assert next % Q == next;
    AccumulateCongruent(msg[n..], r, h', next, CODE_PAD);
  }

  lemma {:induction false} AccumulateRange(msg: seq<byte>, r: nat, h: int, full: nat)
    requires 0 <= h < Q
    ensures 0 <= Accumulate(msg, r, h, full) < Q
    decreases |msg|
  {
    if msg != [] {
      var n := Min(16, |msg|);
      AccumulateRange(msg[n..], r, ((h + BlockValue(msg[..n], full)) * r) % Q, full);
    }
  }

  lemma SumOfResidue(x: int, s: int)
    requires 0 <= x
    ensures (x % TWO_128 + s) % TWO_128 == (x + s) % TWO_128
  {
    var q := x / TWO_128;
    var y := x % TWO_128 + s;
    DivModUnique(x + s, TWO_128, q + y / TWO_128, y % TWO_128);
  }
}
