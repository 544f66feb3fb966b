/** Arithmetic modulo 2^255 - 19 on sixteen 16-bit limbs held in int64 arrays, updated in place:
    src/advanced/secure_channel_crypto.cpp, lines 1135-1217. */
module Field25519 {
  import opened Machine
  import opened Limbs

  const P: int := 0x7fff_ffff_ffff_ffff_ffff_ffff_ffff_ffff_ffff_ffff_ffff_ffff_ffff_ffff_ffff_ffed

  // ------------------------------------------------------------ the field, over plain integers

  function FAdd(x: int, y: int): int { (x + y) % P }
  function FSub(x: int, y: int): int { (x - y) % P }
  function FMul(x: int, y: int): int { (x * y) % P }

  function FPow(x: int, e: nat): int {
    if e == 0 then 1 else FMul(x, FPow(x, e - 1))
  }

  lemma ModShift(x: int, k: int, m: int)
    requires 0 < m
    ensures (x + k * m) % m == x % m
  {
    var q, r := x / m, x % m;
    MulDistrib(q, k, m);
    assert x == m * q + r;
    DivModUnique(x + k * m, m, q + k, r);
  }

  lemma ModMul(x: int, y: int, m: int)
    requires 0 < m
    ensures ((x % m) * y) % m == (x * y) % m
    ensures (x * (y % m)) % m == (x * y) % m
  {
    var q := x / m;
    assert x == x % m + q * m;
    assert x * y == (x % m) * y + (q * y) * m by {
      MulDistrib(x % m, q * m, y);
      assert (q * m) * y == (q * y) * m by { MulAssoc(q, m, y); MulAssoc(q, y, m); }
    }
    ModShift((x % m) * y, q * y, m);
    var q' := y / m;
    assert y == y % m + q' * m;
    assert x * y == x * (y % m) + (x * q') * m by {
      MulDistrib(y % m, q' * m, x);
      MulAssoc(x, q', m);
    }
    ModShift(x * (y % m), x * q', m);
  }

  lemma ModAdd(x: int, y: int, m: int)
    requires 0 < m
    ensures ((x % m) + (y % m)) % m == (x + y) % m
    ensures ((x % m) - (y % m)) % m == (x - y) % m
  {
    AddMod(x, y, x % m, y % m, x / m, y / m, m);
  }

  lemma AddMod(x: int, y: int, r: int, r': int, q: int, q': int, m: int)
    requires 0 < m && x == r + q * m && y == r' + q' * m
    ensures (r + r') % m == (x + y) % m
    ensures (r - r') % m == (x - y) % m
  {
    MulDistrib(q, q', m);
    ModShift(r + r', q + q', m);
    DifferenceTimes(q, q', m);
    ModShift(r - r', q - q', m);
  }

  lemma DifferenceTimes(q: int, q': int, m: int)
    ensures (q - q') * m == q * m - q' * m
  {
  }

  lemma FMulAssoc(x: int, y: int, z: int)
    ensures FMul(FMul(x, y), z) == FMul(x, FMul(y, z))
  {
    ModMul(x * y, z, P);
    ModMul(x, y * z, P);
    MulAssoc(x, y, z);
  }

  lemma {:induction false} FPowAdd(x: int, m: nat, n: nat)
    requires 0 < n
    ensures FPow(x, m + n) == FMul(FPow(x, m), FPow(x, n))
  {
    hide FPow, FMul;
    if m == 0 {
      FPowZero(x);
      FPowRange(x, n);
      OneTimes(FPow(x, n));
    } else {
      FPowStep(x, m + n);
      FPowStep(x, m);
      FPowAdd(x, m - 1, n);
      FMulAssoc(x, FPow(x, m - 1), FPow(x, n));
    }
  }

  lemma FPowZero(x: int)
    ensures FPow(x, 0) == 1
  {
  }

  lemma FPowStep(x: int, e: nat)
    requires e > 0
    ensures FPow(x, e) == FMul(x, FPow(x, e - 1))
  {
  }

  lemma FPowRange(x: int, e: nat)
    requires e > 0
    ensures 0 <= FPow(x, e) < P
  {
    FPowStep(x, e);
    hide FPow;
  }

  lemma OneTimes(v: int)
    requires 0 <= v < P
    ensures FMul(1, v) == v
  {
    DivModUnique(v, P, 0, v);
  }

  // ------------------------------------------------------------ limb representations

  /** The field element that a limb vector stands for. */
  function FE(a: seq<int>): int { Val(a) % P }

  predicate Within(a: seq<int>, lo: int, hi: int) {
    |a| == 16 && forall i :: 0 <= i < 16 ==> lo <= a[i] <= hi
  }

  /** What every multiplication returns: limbs 1..15 are 16-bit, limb 0 is within 38 of that. */
  predicate Reduced(a: seq<int>) {
    |a| == 16 && -38 <= a[0] < 0x10000 + 38 && forall i :: 1 <= i < 16 ==> 0 <= a[i] < 0x10000
  }

  /** Sums and differences of two reduced elements stay far inside this range. */
  const LIMB: int := 0x10_0000

  predicate Small(a: seq<int>) { Within(a, -LIMB, LIMB) }

  predicate Addend(a: seq<int>) { Within(a, -LIMB / 2, LIMB / 2) }

  predicate Normal(a: seq<int>) { Within(a, 0, 0xffff) }

  /** One carry pass: the digits of `Val(a) % 2^256`, with 38 times the overflow added to limb 0. */
  predicate Carried(a: seq<int>, b: seq<int>) {
    && |a| == |b| == 16
    && var q := Val(a) / W(16);
    && 38 * q <= b[0] < 0x10000 + 38 * q
    && (forall i :: 1 <= i < 16 ==> 0 <= b[i] < 0x10000)
    && Val(b) == Val(a) % W(16) + 38 * q
  }

  lemma CarriedCongruent(a: seq<int>, b: seq<int>)
    requires Carried(a, b)
    ensures FE(b) == FE(a)
  {
    W16();
    var q := Val(a) / W(16);
    assert Val(a) == Val(b) + (2 * q) * P;
    ModShift(Val(b), 2 * q, P);
  }

  lemma DivRange(x: int, d: int, lo: int, hi: int)
    requires 0 < d && lo * d <= x < hi * d
    ensures lo <= x / d < hi
  {
    var q := x / d;
    assert x == q * d + x % d;
    if q < lo {
      MulMono(q + 1, lo, d);
      MulDistrib(q, 1, d);
      assert false;
    } else if q >= hi {
      MulMono(hi, q, d);
      assert false;
    }
  }

  /** The overflow of 57-bit limbs is itself at most 57 bits. */
  lemma OverflowRange(a: seq<int>)
    requires Within(a, -0x100_0000_0000_0000, 0x100_0000_0000_0000)
    ensures -0x100_0000_0000_0000 <= Val(a) / W(16) <= 0x100_0000_0000_0000
  {
    ValBound(a, 0x100_0000_0000_0000);
    DivRange(Val(a), W(16), -0x100_0000_0000_0000, 0x100_0000_0000_0001);
  }

  /** Two passes normalise anything whose limbs fit in 57 bits. */
  lemma TwoCarries(a: seq<int>, b: seq<int>, c: seq<int>)
    requires Within(a, -0x100_0000_0000_0000, 0x100_0000_0000_0000)
    requires Carried(a, b) && Carried(b, c)
    ensures Reduced(c) && FE(c) == FE(a)
  {
    CarriedCongruent(a, b);
    CarriedCongruent(b, c);
    OverflowRange(a);
    W16();
    DivRange(Val(b), W(16), -1, 2);
  }

  lemma ReducedRange(a: seq<int>)
    requires Reduced(a)
    ensures -38 <= Val(a) < W(|a|) + 38
  {
    var rest := a[1..];
    assert forall k :: 0 <= k < |rest| ==> rest[k] == a[k + 1];
    ValRange(rest);
    assert W(|a|) == 0x10000 * W(|rest|);
  }

  /** On a reduced element one pass already gives sixteen 16-bit digits. */
  lemma CarryOfReduced(a: seq<int>, b: seq<int>)
    requires Reduced(a) && Carried(a, b)
    ensures Normal(b) && FE(b) == FE(a)
  {
    CarriedCongruent(a, b);
    ReducedRange(a);
    W16();
    assert Val(b) == b[0] + 0x10000 * Val(b[1..]);
    ValRange(b[1..]);
    hide Val, W;
    OverflowOfReduced(Val(a), W(16));
  }

  lemma OverflowOfReduced(v: int, d: int)
    requires 76 < d && -38 <= v < d + 38
    ensures v / d == (if v < 0 then -1 else if v < d then 0 else 1)
    ensures v % d == v - d * (v / d)
  {
    if v < 0 {
      DivModUnique(v, d, -1, v + d);
    } else if v >= d {
      DivModUnique(v, d, 1, v - d);
    } else {
      DivModUnique(v, d, 0, v);
    }
  }

  /** Moving a carry of `q` out of limb `i` and into limb `i + 1` leaves the value alone. */
  lemma CarryStep(a: seq<int>, i: nat, q: int)
    requires i + 1 < |a|
    ensures Val(a[i := a[i] - q * 0x10000][i + 1 := a[i + 1] + q]) == Val(a)
  {
    var b := a[i := a[i] - q * 0x10000];
    ValUpdate(a, i, -(q * 0x10000));
    ValUpdate(b, i + 1, q);
    assert q * W(i + 1) == (q * 0x10000) * W(i) by { MulAssoc(q, 0x10000, W(i)); }
    assert (-(q * 0x10000)) * W(i) == -((q * 0x10000) * W(i));
  }

  /** The last carry leaves the top limb and re-enters limb 0 with weight 38. */
  lemma CarryEnd(start: seq<int>, a: seq<int>, q: int, b: seq<int>)
    requires |start| == |a| == 16 && Val(a) == Val(start) && q == a[15] / 0x10000
    requires forall j :: 0 <= j < 15 ==> 0 <= a[j] < 0x10000
    requires b == a[15 := a[15] - q * 0x10000][0 := a[0] + 38 * q]
    ensures Carried(start, b)
  {
    W16();
    var norm := a[15 := a[15] - q * 0x10000];
    ValUpdate(a, 15, -(q * 0x10000));
    assert Val(norm) == Val(start) - q * W(16);
    ValRange(norm);
    DivModUnique(Val(start), W(16), q, Val(norm));
    ValUpdate(norm, 0, 38 * q);
  }

  // ------------------------------------------------------------ in-place limb operations

  method GfCarry(o: array<int64>)
    requires Within(o[..], -0x4000_0000_0000_0000, 0x4000_0000_0000_0000)
    modifies o
    ensures Carried(old(o[..]), o[..])
  {
    hide Val, W;
    ghost var start := o[..];
    var i := 0;
    while i < 16
      invariant 0 <= i <= 16
      invariant i < 16 ==> forall j :: 0 <= j < i ==> 0 <= o[j] < 0x10000
      invariant forall j :: i < j < 16 ==> o[j] == start[j]
      invariant i < 16 ==> -0x4000_8000_0000_0000 <= o[i] <= 0x4000_8000_0000_0000
      invariant i < 16 ==> Val(o[..]) == Val(start)
      invariant i == 16 ==> Carried(start, o[..])
    {
      ghost var before := o[..];
      ghost var q := o[i] / 0x10000;
      o[i] := o[i] + 0x10000;
      var c: int64 := o[i] / 0x10000; // arithmetic shift right by 16: rounds towards minus infinity
      assert c - 1 == q;
      var next := if i < 15 then i + 1 else 0;
      var wrap: int64 := if i == 15 then 37 * (c - 1) else 0;
      o[next] := o[next] + (c - 1) + wrap;
      o[i] := o[i] - c * 0x10000;
      if i < 15 {
        assert o[..] == before[i := before[i] - q * 0x10000][i + 1 := before[i + 1] + q];
        CarryStep(before, i, q);
      } else {
        assert o[..] == before[15 := before[15] - q * 0x10000][0 := before[0] + 38 * q];
        CarryEnd(start, before, q, o[..]);
      }
      i := i + 1;
    }
  }

  method CarryTwice(o: array<int64>)
    requires Within(o[..], -0x100_0000_0000_0000, 0x100_0000_0000_0000)
    modifies o
    ensures Reduced(o[..]) && FE(o[..]) == FE(old(o[..]))
  {
    hide Val, W, Reduced, FE;
    ghost var a := o[..];
    GfCarry(o);
    ghost var b := o[..];
    OverflowRange(a);
    GfCarry(o);
    TwoCarries(a, b, o[..]);
  }

  method GfAdd(o: array<int64>, a: array<int64>, b: array<int64>)
    requires o.Length == 16 && Addend(a[..]) && Addend(b[..])
    modifies o
    ensures Small(o[..])
    ensures FE(o[..]) == FAdd(FE(old(a[..])), FE(old(b[..])))
  {
    hide Val;
    ghost var a0, b0 := a[..], b[..];
    for i := 0 to 16
      invariant forall j :: 0 <= j < i ==> o[j] == a0[j] + b0[j]
      invariant forall j :: i <= j < 16 ==> a[j] == a0[j] && b[j] == b0[j]
    {
      o[i] := a[i] + b[i];
    }
    ValLinear(o[..], a0, 1, b0);
    ModAdd(Val(a0), Val(b0), P);
  }

  method GfSub(o: array<int64>, a: array<int64>, b: array<int64>)
    requires o.Length == 16 && Addend(a[..]) && Addend(b[..])
    modifies o
    ensures Small(o[..])
    ensures FE(o[..]) == FSub(FE(old(a[..])), FE(old(b[..])))
  {
    hide Val;
    ghost var a0, b0 := a[..], b[..];
    for i := 0 to 16
      invariant forall j :: 0 <= j < i ==> o[j] == a0[j] - b0[j]
      invariant forall j :: i <= j < 16 ==> a[j] == a0[j] && b[j] == b0[j]
    {
      o[i] := a[i] - b[i];
    }
    ValLinear(o[..], a0, -1, b0);
    ModAdd(Val(a0), Val(b0), P);
  }

  /** The first n products of row i of the schoolbook product have been added to their columns. */
  predicate RowAdded(before: seq<int>, after: seq<int>, a: seq<int>, b: seq<int>, i: nat, n: nat)
    requires |before| == |after| == 31 && |a| == |b| == 16 && i < 16 && n <= 16
  {
    && (forall j :: 0 <= j < n ==> after[i + j] == before[i + j] + a[i] * b[j])
    && (forall k :: 0 <= k < 31 && !(i <= k < i + n) ==> after[k] == before[k])
  }

  /** Adding row i of the schoolbook product, a[i] times b shifted up by i limbs. */
  lemma RowDone(a: seq<int>, b: seq<int>, i: nat, before: seq<int>, after: seq<int>)
    requires |a| == |b| == 16 && i < 16 && |before| == |after| == 31
    requires Val(before) == Val(a[..i]) * Val(b)
    requires RowAdded(before, after, a, b, i, 16)
    ensures Val(after) == Val(a[..i + 1]) * Val(b)
  {
    hide Val, W;
    var zeros := seq(i, _ => 0);
    var shifted := zeros + b;
    ValZeros(zeros);
    ValConcat(zeros, b);
    forall k | 0 <= k < 31
      ensures after[k] == before[k] + (if k < |shifted| then a[i] * shifted[k] else 0)
    {
      if k < i {
        assert shifted[k] == 0;
      } else if k < i + 16 {
        var j := k - i;
        assert shifted[k] == b[j] && after[i + j] == before[i + j] + a[i] * b[j];
      }
    }
    ValLinear(after, before, a[i], shifted);
    ValPrefix(a, i);
    RowArithmetic(Val(a[..i]), a[i], W(i), Val(b), Val(a[..i + 1]), Val(before), Val(after));
  }

  lemma RowArithmetic(s: int, x: int, w: int, v: int, s': int, before: int, after: int)
    requires s' == s + x * w && before == s * v && after == before + x * (w * v)
    ensures after == s' * v
  {
  }

  /** Limbs 16..30 weigh 2^256 times limbs 0..14, and 2^256 is 38 modulo p. */
  lemma FoldCongruent(t: seq<int>, u: seq<int>)
    requires |t| == 31 && |u| == 16
    requires forall k :: 0 <= k < 15 ==> u[k] == t[k] + 38 * t[k + 16]
    requires u[15] == t[15]
    ensures FE(u) == Val(t) % P
  {
    W16();
    var lo, hi := t[..16], t[16..];
    assert t == lo + hi;
    ValConcat(lo, hi);
    forall k | 0 <= k < 16
      ensures u[k] == lo[k] + (if k < 15 then 38 * hi[k] else 0)
    {
      assert lo[k] == t[k];
      if k < 15 {
        assert hi[k] == t[k + 16];
      }
    }
    ValLinear(u, lo, 38, hi);
    ModShift(Val(u), 2 * Val(t[16..]), P);
  }

  lemma ProductRange(x: int, y: int)
    requires -LIMB <= x <= LIMB && -LIMB <= y <= LIMB
    ensures -0x100_0000_0000 <= x * y <= 0x100_0000_0000
  {
    var ax, ay := if x < 0 then -x else x, if y < 0 then -y else y;
    MulMono(ax, LIMB, ay);
    MulMono(ay, LIMB, LIMB);
    assert x * y == ax * ay || x * y == -(ax * ay);
    assert 0 <= ax * ay by { MulMono(0, ax, ay); }
  }

  /** Row i of the schoolbook product: adds a[i] * b[j] to column i + j, for every j. */
  method Row(t: array<int64>, a: array<int64>, b: array<int64>, i: nat)
    requires t.Length == 31 && t != a && t != b && i < 16
    requires Small(a[..]) && Small(b[..])
    requires forall k :: 0 <= k < 31 ==> -(i * 0x100_0000_0000) <= t[k] <= i * 0x100_0000_0000
    modifies t
    ensures RowAdded(old(t[..]), t[..], a[..], b[..], i, 16)
    ensures forall k :: 0 <= k < 31 ==> -((i + 1) * 0x100_0000_0000) <= t[k] <= (i + 1) * 0x100_0000_0000
  {
    ghost var before := t[..];
    var bound := (i + 1) * 0x100_0000_0000;
    for j := 0 to 16
      invariant RowAdded(before, t[..], a[..], b[..], i, j)
      invariant forall k :: 0 <= k < 31 ==> -bound <= t[k] <= bound
    {
      ProductRange(a[i], b[j]);
      var p: int64 := a[i] * b[j];
      assert t[i + j] == before[i + j];
      t[i + j] := t[i + j] + p;
    }
  }

  /** The 31 columns of the schoolbook product. */
  method Columns(a: array<int64>, b: array<int64>) returns (t: array<int64>)
    requires Small(a[..]) && Small(b[..])
    ensures fresh(t) && t.Length == 31
    ensures Val(t[..]) == Val(a[..]) * Val(b[..])
    ensures forall k :: 0 <= k < 31 ==> -0x1000_0000_0000 <= t[k] <= 0x1000_0000_0000
  {
    t := new int64[31](_ => 0);
    ValZeros(t[..]);
    for i := 0 to 16
      invariant forall k :: 0 <= k < 31 ==> -(i * 0x100_0000_0000) <= t[k] <= i * 0x100_0000_0000
      invariant Val(t[..]) == Val(a[..i]) * Val(b[..])
    {
      ghost var before := t[..];
      Row(t, a, b, i);
      RowDone(a[..], b[..], i, before, t[..]);
      assert a[..][..i] == a[..i] && a[..][..i + 1] == a[..i + 1];
    }
    assert a[..16] == a[..];
  }

  /** Folds limbs 16..30 back with weight 38 and copies the result out. */
  method Fold(o: array<int64>, t: array<int64>)
    requires o.Length == 16 && t.Length == 31 && o != t
    requires forall k :: 0 <= k < 31 ==> -0x1000_0000_0000 <= t[k] <= 0x1000_0000_0000
    modifies o, t
    ensures FE(o[..]) == Val(old(t[..])) % P
    ensures Within(o[..], -0x100_0000_0000_0000, 0x100_0000_0000_0000)
  {
    ghost var full := t[..];
    for i := 0 to 15
      invariant forall k :: 0 <= k < i ==> t[k] == full[k] + 38 * full[k + 16]
      invariant forall k :: i <= k < 31 ==> t[k] == full[k]
    {
      var high: int64 := 38 * t[i + 16];
      t[i] := t[i] + high;
    }
    for i := 0 to 16
      invariant forall k :: 0 <= k < 15 ==> t[k] == full[k] + 38 * full[k + 16]
      invariant t[15] == full[15]
      invariant forall k :: 0 <= k < i ==> o[k] == t[k]
    {
      o[i] := t[i];
    }
    FoldCongruent(full, o[..]);
    forall k | 0 <= k < 16
      ensures -0x100_0000_0000_0000 <= o[k] <= 0x100_0000_0000_0000
    {
      assert -0x1000_0000_0000 <= full[k] <= 0x1000_0000_0000;
      assert k < 15 ==> -0x1000_0000_0000 <= full[k + 16] <= 0x1000_0000_0000;
    }
  }

  /** `o` may be `a`, `b` or both. */
  method GfMul(o: array<int64>, a: array<int64>, b: array<int64>)
    requires o.Length == 16 && Small(a[..]) && Small(b[..])
    modifies o
    ensures Reduced(o[..])
    ensures FE(o[..]) == FMul(FE(old(a[..])), FE(old(b[..])))
  {
    var t := Columns(a, b);
    Fold(o, t);
    MulCongruent(old(a[..]), old(b[..]));
    CarryTwice(o);
  }

  lemma MulCongruent(a: seq<int>, b: seq<int>)
    ensures (Val(a) * Val(b)) % P == FMul(FE(a), FE(b))
  {
    ModMul(Val(a), Val(b), P);
    ModMul(Val(a) % P, Val(b), P);
  }

  method GfSqr(o: array<int64>, a: array<int64>)
    requires o.Length == 16 && Small(a[..])
    modifies o
    ensures Reduced(o[..])
    ensures FE(o[..]) == FMul(FE(old(a[..])), FE(old(a[..])))
  {
    GfMul(o, a, a);
  }

  method GfMul121665(o: array<int64>, a: array<int64>)
    requires o.Length == 16 && Small(a[..])
    modifies o
    ensures Reduced(o[..])
    ensures FE(o[..]) == FMul(121665, FE(old(a[..])))
  {
    ghost var a0 := a[..];
    var t: array<int64> := new int64[31](_ => 0);
    for i := 0 to 16
      invariant a[..] == a0
      invariant forall k :: 0 <= k < i ==> t[k] == 121665 * a0[k]
    {
      assert a[i] == a0[i];
      t[i] := 121665 * a[i];
    }
    ghost var scaled := t[..];
    for i := 0 to 16
      invariant t[..] == scaled
      invariant forall k :: 0 <= k < i ==> o[k] == scaled[k]
    {
      o[i] := t[i];
    }
    ScaleCongruent(a0, o[..]);
    CarryTwice(o);
  }

  lemma ScaleCongruent(a: seq<int>, o: seq<int>)
    requires |a| == |o| && forall k :: 0 <= k < |a| ==> o[k] == 121665 * a[k]
    ensures FE(o) == FMul(121665, FE(a))
  {
    var zero := seq(|a|, _ => 0);
    ValZeros(zero);
    ValLinear(o, zero, 121665, a);
    ModMul(121665, Val(a), P);
  }

  /** Swaps when b is 1, without branching: an all-ones or all-zeros mask over two's complement words. */
  method GfCswap(f: array<int64>, g: array<int64>, b: int)
    requires f.Length == g.Length == 16 && f != g && (b == 0 || b == 1)
    modifies f, g
    ensures f[..] == if b == 1 then old(g[..]) else old(f[..])
    ensures g[..] == if b == 1 then old(f[..]) else old(g[..])
  {
    ghost var f0, g0 := f[..], g[..];
    var m := Word(-b);
    for i := 0 to 16
      invariant forall k :: 0 <= k < i ==> f[k] == if b == 1 then g0[k] else f0[k]
      invariant forall k :: 0 <= k < i ==> g[k] == if b == 1 then f0[k] else g0[k]
      invariant forall k :: i <= k < 16 ==> f[k] == f0[k] && g[k] == g0[k]
    {
      var t := And(m, Xor(Word(f[i]), Word(g[i])));
      MaskedXor(f[i], g[i], b);
      f[i] := Signed(Xor(Word(f[i]), t));
      g[i] := Signed(Xor(Word(g[i]), t));
    }
  }

  /** Two's complement: the 64-bit word of a signed value, and back. */
  function Word(x: int64): uint64 { x % TWO_64 }

  function Signed(w: nat): (x: int64)
    requires w < TWO_64
    ensures Word(x) == w
  {
    if w < 0x8000_0000_0000_0000 then w else w - TWO_64
  }

  lemma MaskedXor(x: int64, y: int64, b: int)
    requires b == 0 || b == 1
    ensures var t := And(Word(-b), Xor(Word(x), Word(y)));
      && Xor(Word(x), t) == Word(if b == 1 then y else x)
      && Xor(Word(y), t) == Word(if b == 1 then x else y)
      && Signed(Word(x)) == x && Signed(Word(y)) == y
  {
    SignedWord(x);
    SignedWord(y);
    MaskedXorWords(Word(x), Word(y), b);
  }

  lemma SignedWord(x: int64)
    ensures Signed(Word(x)) == x
  {
    DivModUnique(x, TWO_64, if x < 0 then -1 else 0, if x < 0 then x + TWO_64 else x);
  }

  lemma MaskedXorWords(x: uint64, y: uint64, b: int)
    requires b == 0 || b == 1
    ensures var t := And(Word(-b), Xor(x, y));
      Xor(x, t) == (if b == 1 then y else x) && Xor(y, t) == (if b == 1 then x else y)
  {
    if b == 1 {
      Pow2At64();
      DivModUnique(-1, TWO_64, -1, TWO_64 - 1);
      XorRange(x, y, 64);
      AndOnes(Xor(x, y), 64);
      XorCancel(x, y);
      XorComm(x, y);
      XorCancel(y, x);
    } else {
      DivModUnique(0, TWO_64, 0, 0);
      XorZero(x);
      XorZero(y);
    }
  }

  method GfCopy(o: array<int64>, a: array<int64>)
    requires o.Length == a.Length == 16 && o != a
    modifies o
    ensures o[..] == a[..]
  {
    for i := 0 to 16
      invariant o[..i] == a[..i]
    {
      o[i] := a[i];
    }
    assert o[..16] == o[..] && a[..16] == a[..];
  }

  /** a^(2^255 - 21), by squaring, skipping the two zero bits of the exponent. */
  method GfInv(o: array<int64>, a: array<int64>)
    requires o.Length == 16 && Small(a[..])
    modifies o
    ensures Small(o[..])
    ensures FE(o[..]) == FPow(FE(old(a[..])), P - 2)
  {
    hide FMul, FPow, FE, Exponent;
    ghost var a0 := a[..];
    ghost var x := FE(a0);
    var c: array<int64> := new int64[16](_ => 0);
    GfCopy(c, a);
    ghost var e := 1;
    FirstPower(a0);
    ExponentNext(253);
    var i := 253;
    while i >= 0
      invariant -1 <= i <= 253
      invariant Small(c[..]) && a[..] == a0
      invariant e == Exponent(i) >= 1
      invariant FE(c[..]) == FPow(x, e)
    {
      ExponentNext(i - 1);
      GfSqr(c, c);
      FPowAdd(x, e, e);
      e := e + e;
      if i != 2 && i != 4 {
        GfMul(c, c, a);
        FPowNext(x, e);
        e := e + 1;
      }
      i := i - 1;
    }
    FinalExponent();
    GfCopy(o, c);
  }

  lemma FPowNext(x: int, e: nat)
    ensures FPow(x, e + 1) == FMul(FPow(x, e), x)
  {
    assert FPow(x, e + 1) == FMul(x, FPow(x, e));
  }

  lemma FirstPower(a: seq<int>)
    ensures FPow(FE(a), 1) == FE(a)
  {
    FPowStep(FE(a), 1);
    FPowZero(FE(a));
    hide FPow;
    DivModUnique(FE(a), P, 0, FE(a));
  }

  lemma ExponentNext(i: int)
    requires -2 <= i <= 253
    ensures i == 253 ==> Exponent(i) == 1
    ensures -1 <= i < 253 ==>
      Exponent(i) == 2 * Exponent(i + 1) + if i + 1 == 2 || i + 1 == 4 then 0 else 1
  {
  }

  /** The exponent built when the bits above position i have been read: only bits 4 and 2 are zero. */
  ghost function Exponent(i: int): (e: nat)
    requires -1 <= i <= 253
    ensures 1 <= e
    decreases 253 - i
  {
    if i == 253 then 1 else 2 * Exponent(i + 1) + if i + 1 == 2 || i + 1 == 4 then 0 else 1
  }

  /** How far the exponent lags behind a power of two. */
  ghost function Missing(i: int): int
    requires -1 <= i <= 253
    decreases 253 - i
  {
    if i >= 4 then 1 else 2 * Missing(i + 1) - if i + 1 == 2 || i + 1 == 4 then 0 else 1
  }

  lemma {:induction false} ExponentClosed(i: int)
    requires -1 <= i <= 253
    ensures Exponent(i) == Pow2(254 - i) - Missing(i)
    decreases 253 - i
  {
    hide Pow2, Exponent;
    ExponentNext(i);
    Pow2Next(253 - i);
    if i == 253 {
      Pow2Zero();
    } else {
      ExponentClosed(i + 1);
    }
  }

  lemma FinalExponent()
    ensures Exponent(-1) == P - 2
  {
    ExponentClosed(-1);
    Pow2At255();
    assert Missing(3) == 2 && Missing(2) == 3 && Missing(1) == 6 && Missing(0) == 11;
  }

  lemma Pow2At255()
    ensures Pow2(255) - 21 == P - 2
  {
    Pow2At64();
    Pow2Add(64, 64);
    Pow2Add(128, 64);
    Pow2Add(192, 64);
    assert Pow2(256) == 2 * Pow2(255);
  }
}
