/** The fixed-width integers of the C++ source and the bitwise operators on them.
    A fixed-width value is an unbounded `int` with a range.  Assigning to a variable of one of these
    types is what makes the verifier prove that the source's operation does not overflow; where the
    source relies on wrap-around, the model writes `%` out. */
module Machine {
  const TWO_64: int := 0x1_0000_0000_0000_0000

  type byte = bv8
  type uint32 = x: int | 0 <= x < 0x1_0000_0000
  type uint64 = x: int | 0 <= x < 0x1_0000_0000_0000_0000
  type int64 = x: int | -0x8000_0000_0000_0000 <= x < 0x8000_0000_0000_0000

  /** A 16-byte cipher block. */
  type Block = s: seq<byte> | |s| == 16 witness seq(16, _ => 0)

  datatype Option<+T> = None | Some(value: T)

  function Min(a: int, b: int): int {
    if a <= b then a else b
  }

  function MaxReal(x: real, y: real): real { if x >= y then x else y }
  function MinReal(x: real, y: real): real { if x <= y then x else y }

  function Pow2(n: nat): (p: nat)
    ensures 0 < p
  {
    if n == 0 then 1 else 2 * Pow2(n - 1)
  }

  lemma {:induction false} Pow2Add(m: nat, n: nat)
    ensures Pow2(m + n) == Pow2(m) * Pow2(n)
  {
    if m != 0 {
      Pow2Add(m - 1, n);
      assert Pow2(m + n) == 2 * Pow2(m - 1 + n);
      MulAssoc(2, Pow2(m - 1), Pow2(n));
    }
  }

  lemma Pow2Zero()
    ensures Pow2(0) == 1
  {
  }

  lemma Pow2Next(n: nat)
    ensures Pow2(n + 1) == 2 * Pow2(n)
  {
  }

  lemma MulAssoc(a: int, b: int, c: int)
    ensures (a * b) * c == a * (b * c)
  {
  }

  /** Euclidean division by `d` is pinned down by a quotient and a remainder in range. */
  lemma DivModUnique(x: int, d: int, q: int, r: int)
    requires 0 <= r < d && x == q * d + r
    ensures x / d == q && x % d == r
  {
    var q', r' := x / d, x % d;
    assert x == d * q' + r';
    assert (q' - q) * d == r - r';
    if q' > q {
      MulMono(1, q' - q, d);
    } else if q' < q {
      MulMono(1, q - q', d);
    }
  }

  lemma MulMono(a: int, b: int, c: int)
    requires a <= b && 0 <= c
    ensures a * c <= b * c
  {
  }

  lemma MulDistrib(a: int, b: int, c: int)
    ensures (a + b) * c == a * c + b * c
    ensures c * (a + b) == c * a + c * b
  {
  }

  lemma OneMore(n: real, x: real)
    ensures (n + 1.0) * x == n * x + x
  {
  }

  // ---------------------------------------------------------------- bitwise operators

  /** Bit `i` of `x`, bit 0 being the least significant. */
  predicate Bit(x: nat, i: nat) {
    if i == 0 then x % 2 == 1 else Bit(x / 2, i - 1)
  }

  function And(x: nat, y: nat): nat
    decreases x
  {
    if x == 0 || y == 0 then 0
    else (if x % 2 == 1 && y % 2 == 1 then 1 else 0) + 2 * And(x / 2, y / 2)
  }

  function Or(x: nat, y: nat): nat
    decreases x
  {
    if x == 0 then y
    else (if x % 2 == 1 || y % 2 == 1 then 1 else 0) + 2 * Or(x / 2, y / 2)
  }

  function Xor(x: nat, y: nat): nat
    decreases x
  {
    if x == 0 then y
    else (if x % 2 != y % 2 then 1 else 0) + 2 * Xor(x / 2, y / 2)
  }

  /** `x << s` on a 64-bit word: bits pushed past bit 63 are lost. */
  function Shl(x: nat, s: nat): (r: nat)
    ensures r < TWO_64
  {
    (x * Pow2(s)) % TWO_64
  }

  /** `x >> s`, one bit at a time. */
  function Shr(x: nat, s: nat): nat {
    if s == 0 then x else Shr(x / 2, s - 1)
  }

  lemma DivDiv(x: nat, a: nat, b: nat)
    requires 0 < a && 0 < b
    ensures 0 < a * b
    ensures (x / a) / b == x / (a * b)
  {
    var q, r := x / a, x % a;
    var q', r' := q / b, q % b;
    assert x == a * q + r && q == b * q' + r';
    MulDistrib(b * q', r', a);
    MulMono(0, r', a);
    MulMono(r', b - 1, a);
    assert (b - 1) * a == a * b - a;
    assert a * (b * q') == q' * (a * b);
    MulMono(1, a, b);
    DivModUnique(x, a * b, q', r' * a + r);
  }

  lemma {:induction false} BitOfZero(i: nat)
    ensures !Bit(0, i)
  {
    if i != 0 {
      BitOfZero(i - 1);
    }
  }

  lemma {:induction false} BitOr(x: nat, y: nat, i: nat)
    ensures Bit(Or(x, y), i) == (Bit(x, i) || Bit(y, i))
    decreases i
  {
    if x == 0 {
      BitOfZero(i);
    } else if i != 0 {
      BitOr(x / 2, y / 2, i - 1);
    }
  }

  lemma {:induction false} BitOfPow2(k: nat, i: nat)
    ensures Bit(Pow2(k), i) == (k == i)
    decreases i
  {
    if i != 0 {
      if k == 0 {
        BitOfZero(i - 1);
      } else {
        BitOfPow2(k - 1, i - 1);
      }
    }
  }

  /** `x & (1 << i)` is non-zero exactly when bit `i` of `x` is set. */
  lemma {:induction false} AndPow2(x: nat, i: nat)
    ensures (And(x, Pow2(i)) != 0) == Bit(x, i)
    decreases i
  {
    if x == 0 {
      BitOfZero(i);
    } else if i != 0 {
      AndPow2(x / 2, i - 1);
    }
  }

  lemma {:induction false} OrRange(x: nat, y: nat, n: nat)
    requires x < Pow2(n) && y < Pow2(n)
    ensures Or(x, y) < Pow2(n)
    decreases n
  {
    if x != 0 {
      OrRange(x / 2, y / 2, n - 1);
    }
  }

  lemma {:induction false} XorRange(x: nat, y: nat, n: nat)
    requires x < Pow2(n) && y < Pow2(n)
    ensures Xor(x, y) < Pow2(n)
    decreases n
  {
    if x != 0 {
      XorRange(x / 2, y / 2, n - 1);
    }
  }

  lemma {:induction false} XorCancel(x: nat, y: nat)
    ensures Xor(x, Xor(x, y)) == y
  {
    if x != 0 {
      XorCancel(x / 2, y / 2);
    }
  }

  lemma {:induction false} XorComm(x: nat, y: nat)
    ensures Xor(x, y) == Xor(y, x)
    decreases x
  {
    if x == 0 {
      XorZero(y);
    } else if y == 0 {
      XorZero(x);
    } else {
      XorComm(x / 2, y / 2);
    }
  }

  lemma {:induction false} XorZero(x: nat)
    ensures Xor(x, 0) == x
  {
    if x != 0 {
      XorZero(x / 2);
    }
  }

  /** The two operands have no bit in common, so `|` is `+`. */
  lemma {:induction false} OrIsAdd(x: nat, y: nat, k: nat)
    requires x < Pow2(k)
    ensures Or(x, y * Pow2(k)) == x + y * Pow2(k)
    decreases k
  {
    if x != 0 {
      var w := y * Pow2(k - 1);
      assert y * Pow2(k) == 2 * w by { MulAssoc(2, y, Pow2(k - 1)); }
      OrIsAdd(x / 2, y, k - 1);
    }
  }

  /** ANDing with an all-ones mask of `n` bits keeps an `n`-bit value. */
  lemma {:induction false} AndOnes(x: nat, n: nat)
    requires x < Pow2(n)
    ensures And(Pow2(n) - 1, x) == x
    decreases n
  {
    if x != 0 {
      AndOnes(x / 2, n - 1);
      assert (Pow2(n) - 1) / 2 == Pow2(n - 1) - 1;
    }
  }

  lemma Pow2At64()
    ensures Pow2(26) == 0x400_0000 && Pow2(64) == TWO_64
  {
    assert Pow2(8) == 0x100;
    Pow2Add(8, 8);
    Pow2Add(16, 16);
    Pow2Add(32, 32);
    Pow2Add(16, 10);
    assert Pow2(10) == 0x400;
  }

  lemma Pow2AtMost(n: nat)
    requires n <= 64
    ensures Pow2(n) <= TWO_64
  {
    hide Pow2;
    Pow2At64();
    Pow2Add(n, 64 - n);
    MulMono(1, Pow2(64 - n), Pow2(n));
  }

  /** A shift that loses no bits. */
  lemma ShlSmall(x: nat, s: nat)
    requires x * Pow2(s) < TWO_64
    ensures Shl(x, s) == x * Pow2(s)
  {
    hide Pow2;
    DivModUnique(x * Pow2(s), TWO_64, 0, x * Pow2(s));
  }

  lemma {:induction false} BitShr(x: nat, s: nat, i: nat)
    ensures Bit(Shr(x, s), i) == Bit(x, s + i)
  {
    if s != 0 {
      BitShr(x / 2, s - 1, i);
    }
  }

  lemma {:induction false} ShrIsDivision(x: nat, s: nat)
    ensures Shr(x, s) == x / Pow2(s)
  {
    if s != 0 {
      ShrIsDivision(x / 2, s - 1);
      DivDiv(x, 2, Pow2(s - 1));
    }
  }

  lemma {:induction false} BitMod(x: nat, n: nat, i: nat)
    requires i < n
    ensures Bit(x % Pow2(n), i) == Bit(x, i)
  {
    ModHalf(x, Pow2(n - 1));
    if i != 0 {
      BitMod(x / 2, n - 1, i - 1);
    }
  }

  lemma ModHalf(x: nat, m: nat)
    requires 0 < m
    ensures (x % (2 * m)) / 2 == (x / 2) % m
    ensures (x % (2 * m)) % 2 == x % 2
  {
    var q, r := x / (2 * m), x % (2 * m);
    assert x == 2 * m * q + r;
    assert 2 * m * q == 2 * (m * q);
    DivModUnique(x / 2, m, q, r / 2);
  }

  lemma {:induction false} BitMul(x: nat, s: nat, i: nat)
    ensures Bit(x * Pow2(s), i) == (s <= i && Bit(x, i - s))
  {
    if s != 0 {
      assert x * Pow2(s) == 2 * (x * Pow2(s - 1)) by { MulAssoc(2, x, Pow2(s - 1)); }
      if i != 0 {
        BitMul(x, s - 1, i - 1);
      }
    }
  }

  lemma BitShl(x: nat, s: nat, i: nat)
    requires i < 64
    ensures Bit(Shl(x, s), i) == (s <= i && Bit(x, i - s))
  {
    Pow2At64();
    BitMod(x * Pow2(s), 64, i);
    BitMul(x, s, i);
  }

  lemma {:induction false} BitOutOfRange(x: nat, n: nat, i: nat)
    requires x < Pow2(n) && n <= i
    ensures !Bit(x, i)
  {
    if i == 0 {
    } else if n == 0 {
      BitOutOfRange(0, 0, i - 1);
    } else {
      BitOutOfRange(x / 2, n - 1, i - 1);
    }
  }

  lemma XorTwice(x: byte, k: byte)
    ensures (x ^ k) ^ k == x
  {
  }

  /** A 32-bit word, most significant byte first. */
  function BigEndian32(c: uint32): (s: seq<byte>)
    ensures |s| == 4
  {
    [(c / 0x100_0000) as byte, (c / 0x1_0000 % 0x100) as byte, (c / 0x100 % 0x100) as byte, (c % 0x100) as byte]
  }

  /** A 64-bit word, most significant byte first. */
  function BigEndian64(x: uint64): (s: seq<byte>)
    ensures |s| == 8
  {
    seq(8, i requires 0 <= i < 8 => (Shr(x, 56 - 8 * i) % 0x100) as byte)
  }
}
