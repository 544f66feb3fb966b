/** The portable X25519: byte encodings and the Montgomery ladder of
    src/advanced/secure_channel_crypto.cpp, lines 1192-1277. */
module X25519 {
  import opened Machine
  import opened Limbs
  import opened Field25519

  // ------------------------------------------------------------ the function being computed

  /** A point of the u-line in projective form, coordinates in [0, P). */
  datatype Point = Point(x: int, z: int)

  function Double(p: Point): Point {
    var a, b := FAdd(p.x, p.z), FSub(p.x, p.z);
    var aa, bb := FMul(a, a), FMul(b, b);
    var e := FSub(aa, bb);
    Point(FMul(aa, bb), FMul(e, FAdd(FMul(121665, e), aa)))
  }

  /** The sum of p and q, whose difference has affine coordinate u. */
  function DiffAdd(u: int, p: Point, q: Point): Point {
    var da := FMul(FSub(q.x, q.z), FAdd(p.x, p.z));
    var cb := FMul(FAdd(q.x, q.z), FSub(p.x, p.z));
    var s, d := FAdd(da, cb), FSub(da, cb);
    Point(FMul(s, s), FMul(u, FMul(d, d)))
  }

  /** Section 5 of RFC 7748 after reading n of the 255 scalar bits, without the swapping trick:
      a zero bit doubles the first point, a one bit doubles the second. */
  function Ladder(k: nat, u: int, n: nat): (Point, Point)
    requires n <= 255
  {
    if n == 0 then (Point(1, 0), Point(u, 1))
    else
      var (p, q) := Ladder(k, u, n - 1);
      if Bit(k, 255 - n) then (DiffAdd(u, p, q), Double(q)) else (Double(p), DiffAdd(u, p, q))
  }

  lemma LadderStart(k: nat, u: int)
    ensures Ladder(k, u, 0) == (Point(1, 0), Point(u, 1))
  {
  }

  lemma LadderNext(k: nat, u: int, n: nat)
    requires 0 < n <= 255
    ensures var (p, q) := Ladder(k, u, n - 1);
      Ladder(k, u, n) == if Bit(k, 255 - n) then (DiffAdd(u, p, q), Double(q)) else (Double(p), DiffAdd(u, p, q))
  {
  }

  /** The affine coordinate x / z, with 1 / z read as z^(p-2). */
  function Affine(p: Point): int { FMul(p.x, FPow(p.z, P - 2)) }

  function MaskedU(u: seq<byte>): int { (LE(u) % Pow2(255)) % P }

  function Spec(k: seq<byte>, u: seq<byte>): int {
    Affine(Ladder(LE(k), MaskedU(u), 255).0)
  }

  /** The reason the code may defer its swaps: differential addition is symmetric. */
  lemma DiffAddSymmetric(u: int, p: Point, q: Point)
    ensures DiffAdd(u, p, q) == DiffAdd(u, q, p)
  {
    var da := FMul(FSub(q.x, q.z), FAdd(p.x, p.z));
    var cb := FMul(FAdd(q.x, q.z), FSub(p.x, p.z));
    FMulComm(FSub(q.x, q.z), FAdd(p.x, p.z));
    FMulComm(FAdd(q.x, q.z), FSub(p.x, p.z));
    SquareOfDifference(da, cb);
  }

  lemma FMulComm(x: int, y: int)
    ensures FMul(x, y) == FMul(y, x)
  {
  }

  lemma SquareOfDifference(x: int, y: int)
    ensures FMul(FSub(x, y), FSub(x, y)) == FMul(FSub(y, x), FSub(y, x))
  {
    ModMul(x - y, FSub(x, y), P);
    ModMul(x - y, x - y, P);
    ModMul(y - x, FSub(y, x), P);
    ModMul(y - x, y - x, P);
    assert (x - y) * (x - y) == (y - x) * (y - x);
  }

  // ------------------------------------------------------------ encodings

  method GfUnpack(o: array<int64>, s: seq<byte>)
    requires o.Length == 16 && |s| == 32
    modifies o
    ensures Normal(o[..]) && FE(o[..]) == MaskedU(s)
  {
    for i := 0 to 16
      invariant forall k :: 0 <= k < i ==> o[k] == s[2 * k] as int + 0x100 * (s[2 * k + 1] as int)
    {
      OrTwoBytes(s[2 * i], s[2 * i + 1]);
      o[i] := Or(s[2 * i] as int, s[2 * i + 1] as int * 0x100);
    }
    ghost var full := o[..];
    BytePairs(s, full);
    o[15] := o[15] % 0x8000;
    TopBitCleared(full, o[..]);
  }

  lemma TopBitCleared(a: seq<int>, b: seq<int>)
    requires Normal(a) && b == a[15 := a[15] % 0x8000]
    ensures Val(b) == Val(a) % Pow2(255)
  {
    Pow2At255();
    W16();
    hide Val, W, Pow2;
    var top := a[15] / 0x8000;
    ValUpdate(a, 15, b[15] - a[15]);
    assert Val(b) == Val(a) - top * Pow2(255) by { MulAssoc(top, 0x8000, W(15)); }
    assert b == b[..15] + [b[15]];
    ValAppend(b[..15], b[15]);
    ValRange(b[..15]);
    DivModUnique(Val(a), Pow2(255), top, Val(b));
  }

  /** The limbs of p itself, as the source's constants give them. */
  function PLimb(i: nat): int {
    if i == 0 then 0xffed else if i < 15 then 0xffff else 0x7fff
  }

  ghost function PLimbs(): (s: seq<int>)
    ensures |s| == 16 && forall i :: 0 <= i < 16 ==> s[i] == PLimb(i)
  {
    seq(16, i requires 0 <= i => PLimb(i))
  }

  lemma PLimbsAreP()
    ensures Val(PLimbs()) == P
  {
    // raising limb 0 by 18 and limb 15 by 0x8000 gives sixteen limbs of 0xffff, which is 2^256 - 1
    hide Val, W, PLimbs;
    var s := PLimbs();
    var t := s[0 := s[0] + 18];
    var ones := t[15 := t[15] + 0x8000];
    W0();
    assert forall i :: 0 <= i < 16 ==> ones[i] == 0xffff;
    ValUpdate(s, 0, 18);
    ValUpdate(t, 15, 0x8000);
    ValOfOnes(ones);
    W16();
  }

  lemma W0()
    ensures W(0) == 1
  {
  }

  lemma {:induction false} ValOfOnes(a: seq<int>)
    requires forall i :: 0 <= i < |a| ==> a[i] == 0xffff
    ensures Val(a) == W(|a|) - 1
  {
    if a != [] {
      ValOfOnes(a[1..]);
    }
  }

  /** The state of the borrow loop: limbs below i - 1 are final, limb i - 1 may have gone negative. */
  ghost predicate Borrowing(a: seq<int>, m: seq<int>, i: nat)
    requires |a| == |m| == 16 && 1 <= i <= 16
  {
    && (forall k :: 0 <= k < i - 1 ==> 0 <= m[k] < 0x10000)
    && -0x10000 <= m[i - 1] < 0x10000
    && Val(m[..i]) == Val(a[..i]) - Val(PLimbs()[..i])
  }

  /** m := a - p by borrowing limb to limb; the sign of the result is left in limb 15. */
  method SubtractP(a: array<int64>, m: array<int64>) returns (b: int)
    requires m.Length == 16 && a != m && Normal(a[..])
    modifies m
    ensures b == (if Val(a[..]) < P then 1 else 0)
    ensures b == 0 ==> Normal(m[..]) && Val(m[..]) == Val(a[..]) - P
  {
    m[0] := a[0] - 0xffed;
    FirstBorrow(a[..], m[..]);
    for i := 1 to 15
      invariant Borrowing(a[..], m[..], i)
    {
      ghost var before := m[..];
      var borrow := (m[i - 1] / 0x10000) % 2;
      m[i] := a[i] - 0xffff - borrow;
      m[i - 1] := m[i - 1] % 0x10000;
      BorrowStep(a[..], before, m[..], i, borrow);
    }
    ghost var before := m[..];
    var borrow := (m[14] / 0x10000) % 2;
    m[15] := a[15] - 0x7fff - borrow;
    b := (m[15] / 0x10000) % 2;
    m[14] := m[14] % 0x10000;
    BorrowStep(a[..], before, m[..], 15, borrow);
    BorrowDone(a[..], m[..]);
  }

  lemma FirstBorrow(a: seq<int>, m: seq<int>)
    requires |a| == |m| == 16 && Normal(a) && m[0] == a[0] - 0xffed
    ensures Borrowing(a, m, 1)
  {
    PLimbsAreP();
    assert m[..1] == [] + [m[0]] && a[..1] == [] + [a[0]] && PLimbs()[..1] == [] + [PLimbs()[0]];
    ValAppend([], m[0]);
    ValAppend([], a[0]);
    ValAppend([], PLimbs()[0]);
  }

  lemma BorrowDone(a: seq<int>, m: seq<int>)
    requires |a| == |m| == 16 && Normal(a) && Borrowing(a, m, 16) && -0x8000 <= m[15] <= 0x8000
    ensures Val(m) == Val(a) - P
    ensures (m[15] < 0) == (Val(a) < P)
  {
    hide Val, W, PLimbs;
    PLimbsAreP();
    assert a[..16] == a && m[..16] == m && PLimbs()[..16] == PLimbs();
    SignOfTopLimb(m);
  }

  lemma BorrowStep(a: seq<int>, m: seq<int>, m': seq<int>, i: nat, borrow: int)
    requires |a| == |m| == |m'| == 16 && 1 <= i < 16 && Normal(a) && Borrowing(a, m, i)
    requires borrow == (m[i - 1] / 0x10000) % 2
    requires m' == m[i := a[i] - PLimb(i) - borrow][i - 1 := m[i - 1] % 0x10000]
    ensures Borrowing(a, m', i + 1)
    ensures i == 15 ==> -0x8000 <= m'[15] <= 0x8000
  {
    assert W(i) == 0x10000 * W(i - 1);
    hide Val, W;
    var low := m[..i];
    assert m[i - 1] % 0x10000 == m[i - 1] + 0x10000 * borrow;
    ValUpdate(low, i - 1, 0x10000 * borrow);
    assert m'[..i] == low[i - 1 := low[i - 1] + 0x10000 * borrow];
    ValPrefix(a, i);
    ValPrefix(PLimbs(), i);
    ValPrefix(m', i);
    BorrowArithmetic(a[i], PLimb(i), borrow, W(i - 1), W(i));
  }

  lemma BorrowArithmetic(x: int, p: int, borrow: int, w: int, v: int)
    requires v == 0x10000 * w
    ensures (0x10000 * borrow) * w + (x - p - borrow) * v == x * v - p * v
  {
  }

  /** Only limb 15 may be negative, so it carries the sign of the whole number. */
  lemma SignOfTopLimb(m: seq<int>)
    requires |m| == 16 && -0x8000 <= m[15] <= 0x8000
    requires forall k :: 0 <= k < 15 ==> 0 <= m[k] < 0x10000
    ensures (Val(m) < 0) == (m[15] < 0)
  {
    assert m == m[..15] + [m[15]];
    ValAppend(m[..15], m[15]);
    ValRange(m[..15]);
    if m[15] < 0 {
      MulMono(m[15], -1, W(15));
    } else {
      MulMono(0, m[15], W(15));
    }
  }

  /** Writes the canonical 32-byte encoding: the unique representative below p. */
  method GfPack(out: array<byte>, a: array<int64>)
    requires out.Length == 32 && Reduced(a[..])
    modifies out, a
    ensures LE(out[..]) == FE(old(a[..]))
  {
    hide Val, W;
    CarryPack(a);
    var m := new int64[16](_ => 0);
    ghost var v := Val(a[..]);
    W16();
    ValRange(a[..]);
    for j := 0 to 2
      invariant Normal(a[..]) && 0 <= Val(a[..])
      invariant Val(a[..]) == v || Val(a[..]) == v - P || Val(a[..]) == v - 2 * P
      invariant j == 0 ==> Val(a[..]) == v
      invariant j == 1 ==> Val(a[..]) < P || Val(a[..]) == v - P
      invariant j == 2 ==> Val(a[..]) < P
    {
      ghost var before := Val(a[..]);
      var b := SubtractP(a, m);
      GfCswap(a, m, 1 - b);
      assert Val(a[..]) == if before < P then before else before - P;
    }
    ModShift(Val(a[..]), if Val(a[..]) == v then 0 else if Val(a[..]) == v - P then 1 else 2, P);
    DivModUnique(Val(a[..]), P, 0, Val(a[..]));
    WriteBytes(out, a);
  }

  function Pair(lo: byte, hi: byte): int { lo as int + 0x100 * (hi as int) }

  lemma PairOf(x: int)
    requires 0 <= x < 0x10000
    ensures Pair((x % 0x100) as byte, (x / 0x100 % 0x100) as byte) == x
  {
    ByteRound(x % 0x100);
    ByteRound(x / 0x100);
  }

  method WriteBytes(out: array<byte>, a: array<int64>)
    requires out.Length == 32 && Normal(a[..])
    modifies out
    ensures LE(out[..]) == Val(a[..])
  {
    for i := 0 to 16
      invariant forall k :: 0 <= k < i ==> a[k] == Pair(out[2 * k], out[2 * k + 1])
    {
      out[2 * i] := (a[i] % 0x100) as byte;
      out[2 * i + 1] := (a[i] / 0x100 % 0x100) as byte;
      PairOf(a[i]);
    }
    BytePairs(out[..], a[..]);
  }

  /** The two carry passes that open `gf_pack`. */
  method CarryPack(a: array<int64>)
    requires Reduced(a[..])
    modifies a
    ensures Normal(a[..]) && FE(a[..]) == FE(old(a[..]))
  {
    ghost var start := a[..];
    GfCarry(a);
    CarryOfReduced(start, a[..]);
    ghost var once := a[..];
    GfCarry(a);
    CarryOfReduced(once, a[..]);
  }

  // ------------------------------------------------------------ the ladder

  /** A limb vector fit to be multiplied holds the field element v. */
  ghost predicate Is(a: array<int64>, v: int)
    reads a
  {
    Small(a[..]) && FE(a[..]) == v
  }

  /** A reduced limb vector holds the field element v. */
  ghost predicate IsReduced(a: array<int64>, v: int)
    reads a
  {
    Reduced(a[..]) && FE(a[..]) == v
  }

  /** The arithmetic of one loop iteration, after the swap: first what both halves share, */
  method StepShared(x2: array<int64>, z2: array<int64>, ghost p: Point)
    returns (A: array<int64>, AA: array<int64>, B: array<int64>, BB: array<int64>, E: array<int64>)
    requires IsReduced(x2, p.x) && IsReduced(z2, p.z)
    ensures fresh(A) && fresh(AA) && fresh(B) && fresh(BB) && fresh(E)
    ensures Is(A, FAdd(p.x, p.z)) && Is(B, FSub(p.x, p.z))
    ensures IsReduced(AA, FMul(FAdd(p.x, p.z), FAdd(p.x, p.z)))
    ensures IsReduced(BB, FMul(FSub(p.x, p.z), FSub(p.x, p.z)))
    ensures Is(E, FSub(FE(AA[..]), FE(BB[..])))
  {
    hide FMul, FAdd, FSub;
    A, AA := new int64[16](_ => 0), new int64[16](_ => 0);
    B, BB := new int64[16](_ => 0), new int64[16](_ => 0);
    E := new int64[16](_ => 0);
    GfAdd(A, x2, z2);
    GfSqr(AA, A);
    GfSub(B, x2, z2);
    GfSqr(BB, B);
    GfSub(E, AA, BB);
  }

  /** then the differential addition, left in (x3, z3), */
  method StepAdd(x1: array<int64>, x3: array<int64>, z3: array<int64>, A: array<int64>, B: array<int64>,
                 ghost p: Point, ghost q: Point)
    requires x3 != z3 && x1 != x3 && x1 != z3 && A != x3 && A != z3 && B != x3 && B != z3
    requires Normal(x1[..]) && IsReduced(x3, q.x) && IsReduced(z3, q.z)
    requires Is(A, FAdd(p.x, p.z)) && Is(B, FSub(p.x, p.z))
    modifies x3, z3
    ensures IsReduced(x3, DiffAdd(FE(x1[..]), p, q).x) && IsReduced(z3, DiffAdd(FE(x1[..]), p, q).z)
  {
    hide FMul, FAdd, FSub;
    var C, D := new int64[16](_ => 0), new int64[16](_ => 0);
    var DA, CB := new int64[16](_ => 0), new int64[16](_ => 0);
    GfAdd(C, x3, z3);
    GfSub(D, x3, z3);
    GfMul(DA, D, A);
    GfMul(CB, C, B);
    GfAdd(x3, DA, CB);
    GfSqr(x3, x3);
    GfSub(z3, DA, CB);
    GfSqr(z3, z3);
    GfMul(z3, x1, z3);
  }

  /** and last the doubling, left in (x2, z2). */
  method StepDouble(x2: array<int64>, z2: array<int64>, AA: array<int64>, BB: array<int64>, E: array<int64>)
    requires x2 != z2 && AA != x2 && AA != z2 && BB != x2 && BB != z2 && E != x2 && E != z2
    requires x2.Length == z2.Length == 16
    requires Reduced(AA[..]) && Reduced(BB[..]) && Small(E[..])
    modifies x2, z2
    ensures IsReduced(x2, FMul(FE(AA[..]), FE(BB[..])))
    ensures IsReduced(z2, FMul(FE(E[..]), FAdd(FMul(121665, FE(E[..])), FE(AA[..]))))
  {
    hide FMul, FAdd, FSub;
    var t := new int64[16](_ => 0);
    GfMul(x2, AA, BB);
    GfMul121665(t, E);
    GfAdd(t, t, AA);
    GfMul(z2, E, t);
  }

  method Step(x1: array<int64>, x2: array<int64>, z2: array<int64>, x3: array<int64>, z3: array<int64>,
              ghost p: Point, ghost q: Point)
    requires x2 != z2 && x2 != x3 && x2 != z3 && z2 != x3 && z2 != z3 && x3 != z3
    requires x1 != x2 && x1 != z2 && x1 != x3 && x1 != z3
    requires Normal(x1[..])
    requires IsReduced(x2, p.x) && IsReduced(z2, p.z) && IsReduced(x3, q.x) && IsReduced(z3, q.z)
    modifies x2, z2, x3, z3
    ensures IsReduced(x2, Double(p).x) && IsReduced(z2, Double(p).z)
    ensures IsReduced(x3, DiffAdd(FE(x1[..]), p, q).x) && IsReduced(z3, DiffAdd(FE(x1[..]), p, q).z)
  {
    hide FMul, FAdd, FSub;
    var A, AA, B, BB, E := StepShared(x2, z2, p);
    StepAdd(x1, x3, z3, A, B, p, q);
    StepDouble(x2, z2, AA, BB, E);
  }

  /** The two conditional swaps of the ladder. */
  method SwapPoints(x2: array<int64>, z2: array<int64>, x3: array<int64>, z3: array<int64>, swap: int,
                    ghost p: Point, ghost q: Point)
    requires x2 != z2 && x2 != x3 && x2 != z3 && z2 != x3 && z2 != z3 && x3 != z3 && (swap == 0 || swap == 1)
    requires IsReduced(x2, p.x) && IsReduced(z2, p.z) && IsReduced(x3, q.x) && IsReduced(z3, q.z)
    modifies x2, z2, x3, z3
    ensures var (p', q') := if swap == 1 then (q, p) else (p, q);
      IsReduced(x2, p'.x) && IsReduced(z2, p'.z) && IsReduced(x3, q'.x) && IsReduced(z3, q'.z)
  {
    GfCswap(x2, x3, swap);
    GfCswap(z2, z3, swap);
  }

  method SwX25519(r: array<byte>, k: seq<byte>, u: seq<byte>)
    requires r.Length == 32 && |k| == 32 && |u| == 32
    modifies r
    ensures LE(r[..]) == Spec(k, u)
  {
    hide FMul, FAdd, FSub, FPow, Ladder, Double, DiffAdd, Val, LE, Bit, FE, IsReduced, Normal, MaskedU;
    var x1 := new int64[16](_ => 0);
    GfUnpack(x1, u);
    ghost var base := FE(x1[..]);
    var x2, z2, x3, z3 := InitialPoints(x1);
    LadderStart(LE(k), base);
    ghost var key := LE(k);
    ghost var p, q := Point(1, 0), Point(base, 1);
    var swap := 0;
    var bit := 254;
    while bit >= 0
      invariant -1 <= bit <= 254
      invariant swap == 0 || swap == 1
      invariant Normal(x1[..]) && FE(x1[..]) == base
      invariant (p, q) == Ladder(key, base, 254 - bit)
      invariant var (first, second) := if swap == 1 then (q, p) else (p, q);
        IsReduced(x2, first.x) && IsReduced(z2, first.z) && IsReduced(x3, second.x) && IsReduced(z3, second.z)
    {
      var b := ScalarBit(k, bit);
      ghost var (first, second) := if swap == 1 then (q, p) else (p, q);
      swap := if swap == b then 0 else 1; // swap ^= b on single bits
      SwapPoints(x2, z2, x3, z3, swap, first, second);
      swap := b;
      first, second := if b == 1 then q else p, if b == 1 then p else q;
      Step(x1, x2, z2, x3, z3, first, second);
      DiffAddSymmetric(base, p, q);
      LadderNext(key, base, 255 - bit);
      p, q := Ladder(key, base, 255 - bit).0, Ladder(key, base, 255 - bit).1;
      bit := bit - 1;
    }
    SwapPoints(x2, z2, x3, z3, swap, if swap == 1 then q else p, if swap == 1 then p else q);
    ToAffine(r, x2, z2, p);
  }

  /** x2 / z2, packed. */
  method ToAffine(r: array<byte>, x2: array<int64>, z2: array<int64>, ghost p: Point)
    requires r.Length == 32 && x2 != z2 && IsReduced(x2, p.x) && IsReduced(z2, p.z)
    modifies r, x2
    ensures LE(r[..]) == Affine(p)
  {
    hide FMul, FPow;
    var t: array<int64> := new int64[16](_ => 0);
    GfInv(t, z2);
    GfMul(x2, x2, t);
    GfPack(r, x2);
  }

  method ScalarBit(k: seq<byte>, bit: nat) returns (b: int)
    requires |k| == 32 && bit < 255
    ensures b == if Bit(LE(k), bit) then 1 else 0
  {
    b := ((k[bit / 8] >> (bit % 8)) & 1) as int;
    ByteBit(k[bit / 8], bit % 8);
    LEBit(k, bit);
  }

  /** (x2 : z2) = (1 : 0) and (x3 : z3) = (x1 : 1). */
  method InitialPoints(x1: array<int64>)
    returns (x2: array<int64>, z2: array<int64>, x3: array<int64>, z3: array<int64>)
    requires Normal(x1[..])
    ensures fresh(x2) && fresh(z2) && fresh(x3) && fresh(z3)
    ensures x2 != z2 && x2 != x3 && x2 != z3 && z2 != x3 && z2 != z3 && x3 != z3
    ensures IsReduced(x2, 1) && IsReduced(z2, 0) && IsReduced(x3, FE(x1[..])) && IsReduced(z3, 1)
  {
    x2, z2 := new int64[16](_ => 0), new int64[16](_ => 0);
    x3, z3 := new int64[16](_ => 0), new int64[16](_ => 0);
    for i := 0 to 16
      invariant forall k :: 0 <= k < i ==> x2[k] == if k == 0 then 1 else 0
      invariant forall k :: 0 <= k < i ==> z2[k] == 0 && x3[k] == x1[k] && z3[k] == x2[k]
    {
      x2[i] := if i == 0 then 1 else 0;
      z2[i] := 0;
      x3[i] := x1[i];
      z3[i] := if i == 0 then 1 else 0;
    }
    ZeroAndOne(x2[..], z2[..]);
    assert x3[..] == x1[..] && z3[..] == x2[..];
  }

  lemma ZeroAndOne(one: seq<int>, zero: seq<int>)
    requires |one| == |zero| == 16
    requires forall i :: 0 <= i < 16 ==> one[i] == (if i == 0 then 1 else 0) && zero[i] == 0
    ensures FE(one) == 1 && FE(zero) == 0
  {
    ValZeros(zero);
    ValZeros(one[1..]);
  }

  /** Section 6.1 of RFC 7748: refuse the all-zero output. */
  method X25519SharedSecret(privateKey: seq<byte>, peerPublic: seq<byte>, sharedSecret: array<byte>)
    returns (ok: bool)
    requires sharedSecret.Length == 32 && |privateKey| == 32 && |peerPublic| == 32
    modifies sharedSecret
    ensures LE(sharedSecret[..]) == Spec(privateKey, peerPublic)
    ensures ok == (Spec(privateKey, peerPublic) != 0)
  {
    SwX25519(sharedSecret, privateKey, peerPublic);
    var check: byte := 0;
    for i := 0 to 32
      invariant check == 0 <==> forall k :: 0 <= k < i ==> sharedSecret[k] == 0
      invariant LE(sharedSecret[..]) == Spec(privateKey, peerPublic)
    {
      OrZero(check, sharedSecret[i]);
      check := check | sharedSecret[i];
    }
    LEZero(sharedSecret[..]);
    ok := check != 0;
  }

  lemma OrZero(a: byte, b: byte)
    ensures (a | b == 0) == (a == 0 && b == 0)
  {
  }

  lemma {:induction false} LEZero(s: seq<byte>)
    ensures LE(s) == 0 <==> forall k :: 0 <= k < |s| ==> s[k] == 0
  {
    if s != [] {
      LEZero(s[1..]);
      if LE(s) == 0 {
        assert s[0] as int == 0;
        assert forall k :: 0 < k < |s| ==> s[k] == s[1..][k - 1];
      }
    }
  }
}
