/** Streaming SHA-256, HMAC and PBKDF2 over any compression function:
    src/advanced/secure_channel_crypto.cpp, lines 111-315. */
module Sha256 {
  import opened Machine

  type Words = s: seq<bv32> | |s| == 8 witness seq(8, _ => 0)
  type Chunk = s: seq<byte> | |s| == 64 witness seq(64, _ => 0)
  type Compression = (Words, Chunk) -> Words

  const INITIAL: Words := [0x6a09e667, 0xbb67ae85, 0x3c6ef372, 0xa54ff53a, 0x510e527f, 0x9b05688c, 0x1f83d9ab, 0x5be0cd19]

  // ------------------------------------------------------------ the hash of a whole message

  /** The compression function folded over the full chunks of data; a shorter rest is ignored. */
  function Fold(f: Compression, state: Words, data: seq<byte>): Words
    decreases |data|
  {
    if |data| < 64 then state else Fold(f, f(state, data[..64]), data[64..])
  }

  /** The fewest zeros that leave 8 bytes of a chunk after `pending` bytes and the 0x80. */
  function ZeroCount(pending: nat): nat
    requires pending < 64
  {
    if pending <= 55 then 55 - pending else 119 - pending
  }

  lemma PaddedLength(n: nat)
    ensures (n + 9 + ZeroCount(n % 64)) % 64 == 0
  {
    var q, m := n / 64, n % 64;
    DivModUnique(n + 9 + ZeroCount(m), 64, q + if m <= 55 then 1 else 2, 0);
  }

  /** Section 5.1.1 of FIPS 180-4: 0x80, the fewest zeros that leave 8 bytes free, the length in bits. */
  function Padding(n: nat): (p: seq<byte>)
    ensures (n + |p|) % 64 == 0 && 9 <= |p| <= 72
  {
    var zeros := ZeroCount(n % 64);
    PaddedLength(n);
    [0x80] + seq(zeros, _ => 0) + BigEndian64(8 * n % TWO_64)
  }

  function WordBytes(w: bv32): (s: seq<byte>)
    ensures |s| == 4
  {
    [(w >> 24) as byte, ((w >> 16) & 0xff) as byte, ((w >> 8) & 0xff) as byte, (w & 0xff) as byte]
  }

  function Digest(state: Words): (d: seq<byte>)
    ensures |d| == 32
  {
    WordBytes(state[0]) + WordBytes(state[1]) + WordBytes(state[2]) + WordBytes(state[3])
    + WordBytes(state[4]) + WordBytes(state[5]) + WordBytes(state[6]) + WordBytes(state[7])
  }

  function Hash(f: Compression, msg: seq<byte>): (d: seq<byte>)
    ensures |d| == 32
  {
    Digest(Fold(f, INITIAL, msg + Padding(|msg|)))
  }

  /** Full chunks can be absorbed first. */
  lemma {:induction false} FoldConcat(f: Compression, state: Words, a: seq<byte>, b: seq<byte>)
    requires |a| % 64 == 0
    ensures Fold(f, state, a + b) == Fold(f, Fold(f, state, a), b)
    decreases |a|
  {
    if a == [] {
      assert a + b == b;
    } else {
      assert (a + b)[..64] == a[..64] && (a + b)[64..] == a[64..] + b;
      FoldConcat(f, f(state, a[..64]), a[64..], b);
    }
  }

  /** The part of a message that still waits in the buffer. */
  function Pending(msg: seq<byte>): (rest: seq<byte>)
    ensures |rest| == |msg| % 64
  {
    msg[|msg| - |msg| % 64..]
  }

  lemma FoldPending(f: Compression, msg: seq<byte>, more: seq<byte>)
    ensures Fold(f, INITIAL, msg + more) == Fold(f, Fold(f, INITIAL, msg), Pending(msg) + more)
  {
    var full := msg[..|msg| - |msg| % 64];
    assert msg == full + Pending(msg);
    assert msg + more == full + (Pending(msg) + more);
    FoldConcat(f, INITIAL, full, Pending(msg));
    FoldConcat(f, INITIAL, full, Pending(msg) + more);
  }

  lemma PendingConcat(msg: seq<byte>, more: seq<byte>)
    ensures Pending(msg + more) == Pending(Pending(msg) + more)
  {
    var whole, short := msg + more, Pending(msg) + more;
    var cut := |msg| - |msg| % 64;
    assert |whole| == |short| + cut && cut % 64 == 0;
    assert |whole| % 64 == |short| % 64;
    assert whole[cut..] == short;
  }

  // ------------------------------------------------------------ the streaming context

  class Context {
    const f: Compression
    var state: Words
    var buffer: array<byte>
    var bitcount: uint64
    ghost var absorbed: seq<byte>

    /** State, buffer prefix and bit count are those of the bytes absorbed so far. */
    ghost predicate Valid()
      reads this, buffer
    {
      && buffer.Length == 64
      && bitcount == 8 * |absorbed| % TWO_64
      && state == Fold(f, INITIAL, absorbed)
      && buffer[..|absorbed| % 64] == Pending(absorbed)
    }

    /** sha256_init */
    constructor (f: Compression)
      ensures Valid() && fresh(buffer)
      ensures this.f == f && absorbed == []
    {
      this.f := f;
      state := INITIAL;
      bitcount := 0;
      buffer := new byte[64](_ => 0);
      absorbed := [];
    }

    /** Copying a context by value. */
    constructor Copy(other: Context)
      requires other.Valid()
      ensures Valid() && fresh(buffer)
      ensures f == other.f && absorbed == other.absorbed
    {
      f := other.f;
      state := other.state;
      bitcount := other.bitcount;
      absorbed := other.absorbed;
      var b := new byte[64](_ => 0);
      buffer := b;
      new;
      CopyInto(buffer, 0, other.buffer[..]);
      assert buffer[..] == other.buffer[..];
      assert buffer[..|absorbed| % 64] == buffer[..][..|absorbed| % 64];
    }

    /** (bitcount >> 3) & 63 */
    function Fill(): nat
      reads this
    {
      bitcount / 8 % 64
    }

    lemma FillIsPending()
      requires Valid()
      ensures Fill() == |absorbed| % 64
    {
      FillArithmetic(|absorbed|);
    }

    /** Everything absorbed is accounted for by `state` followed by the bytes `rest`. */
    ghost predicate Behind(rest: seq<byte>)
      reads this
    {
      && bitcount == 8 * |absorbed| % TWO_64
      && Fold(f, INITIAL, absorbed) == Fold(f, state, rest)
      && Pending(absorbed) == Pending(rest)
    }

    /** The main loop of sha256_update, from `offset` on, and the copy of what is left. */
    method AbsorbRest(data: seq<byte>, start: nat)
      requires buffer.Length == 64 && start <= |data| && Behind(data[start..])
      modifies this`state, buffer
      ensures Valid()
    {
      hide Pending;
      var offset := start;
      while offset + 64 <= |data|
        invariant start <= offset <= |data|
        invariant Behind(data[offset..])
      {
        var chunk := data[offset..offset + 64];
        assert data[offset..] == chunk + data[offset + 64..];
        DropChunk(f, state, chunk, data[offset + 64..]);
        state := f(state, chunk);
        offset := offset + 64;
      }
      ShortPending(data[offset..]);
      var remaining := |data| - offset;
      if remaining > 0 {
        CopyInto(buffer, 0, data[offset..]);
      }
      assert buffer[..0] == [];
      assert Pending(absorbed) == data[offset..];
    }

    /** sha256_update */
    method Update(data: seq<byte>)
      requires Valid()
      modifies this, buffer
      ensures Valid() && buffer == old(buffer)
      ensures absorbed == old(absorbed) + data
    {
      hide Fold, Pending;
      ghost var pending := Pending(absorbed);
      FillIsPending();
      FoldPending(f, absorbed, data);
      PendingConcat(absorbed, data);
      BitcountStep(|absorbed|, |data|);
      var bufferFill := Fill();
      bitcount := (bitcount as int + 8 * |data|) % TWO_64;
      absorbed := absorbed + data;
      assert Behind(pending + data);
      var offset := 0;
      if bufferFill > 0 {
        var take := Min(64 - bufferFill, |data|);
        CopyInto(buffer, bufferFill, data[..take]);
        offset := take;
        assert data == data[..take] + data[take..];
        assert pending + data == (pending + data[..take]) + data[take..];
        if bufferFill + take < 64 {
          assert data[take..] == [] && data[..take] == data;
          ShortPending(pending + data);
          ShortFold(f, state, pending + data);
          return;
        }
        assert buffer[..] == pending + data[..take];
        DropChunk(f, state, buffer[..], data[take..]);
        state := f(state, buffer[..]);
      } else {
        assert pending + data == data == data[0..];
      }
      AbsorbRest(data, offset);
    }

    /** sha256_final, which also wipes the context. */
    method Final() returns (digest: seq<byte>)
      requires Valid()
      modifies this, buffer
      ensures digest == Hash(f, old(absorbed))
      ensures buffer == old(buffer)
      ensures state == seq(8, _ => 0) && bitcount == 0 && buffer[..] == seq(64, _ => 0)
    {
      hide Fold, Pending, Digest, Padding, ZeroCount;
      ghost var msg := absorbed;
      FillIsPending();
      FoldPending(f, msg, Padding(|msg|));
      ghost var pending := Pending(msg);
      var bufferFill := Fill();
      PaddingBlocks(pending, |msg|);
      var length := BigEndian64(bitcount);
      CopyInto(buffer, bufferFill, [0x80]);
      bufferFill := bufferFill + 1;
      if bufferFill > 56 {
        CopyInto(buffer, bufferFill, seq(64 - bufferFill, _ => 0));
        assert buffer[..] == buffer[..64] == pending + [0x80] + seq(64 - bufferFill, _ => 0);
        DropChunk(f, state, buffer[..], seq(56, _ => 0) + length);
        state := f(state, buffer[..]);
        bufferFill := 0;
      }
      CopyInto(buffer, bufferFill, seq(56 - bufferFill, _ => 0));
      ghost var front := buffer[..56];
      CopyInto(buffer, 56, length);
      assert buffer[..] == buffer[..64] == front + length;
      DropChunk(f, state, buffer[..], []);
      assert buffer[..] + [] == buffer[..];
      state := f(state, buffer[..]);
      ShortFold(f, state, []);
      digest := Digest(state);
      Wipe();
    }

    method Wipe()
      requires buffer.Length == 64
      modifies this`state, this`bitcount, buffer
      ensures state == seq(8, _ => 0) && bitcount == 0 && buffer[..] == seq(64, _ => 0)
    {
      CopyInto(buffer, 0, seq(64, _ => 0));
      assert buffer[..] == buffer[..64] == seq(64, _ => 0);
      state := seq(8, _ => 0);
      bitcount := 0;
    }
  }

  /** The padding fills the pending bytes up to one or two chunks. */
  lemma PaddingBlocks(pending: seq<byte>, n: nat)
    requires |pending| == n % 64
    ensures var length := BigEndian64(8 * n % TWO_64);
      pending + Padding(n) ==
        if |pending| + 1 > 56 then (pending + [0x80] + seq(63 - |pending|, _ => 0)) + (seq(56, _ => 0) + length)
        else (pending + [0x80] + seq(55 - |pending|, _ => 0)) + length
  {
    var length := BigEndian64(8 * n % TWO_64);
    var k := |pending|;
    if k + 1 > 56 {
      assert seq<byte>(119 - k, _ => 0) == seq<byte>(63 - k, _ => 0) + seq<byte>(56, _ => 0);
    }
  }

  lemma DropChunk(f: Compression, state: Words, chunk: Chunk, rest: seq<byte>)
    ensures Fold(f, state, chunk + rest) == Fold(f, f(state, chunk), rest)
    ensures Pending(chunk + rest) == Pending(rest)
  {
    assert (chunk + rest)[..64] == chunk && (chunk + rest)[64..] == rest;
    var cut := |rest| - |rest| % 64;
    assert (chunk + rest)[64 + cut..] == rest[cut..];
  }

  lemma ShortPending(s: seq<byte>)
    requires |s| < 64
    ensures Pending(s) == s
  {
  }

  lemma ShortFold(f: Compression, state: Words, s: seq<byte>)
    requires |s| < 64
    ensures Fold(f, state, s) == state
  {
  }

  lemma FillArithmetic(n: nat)
    ensures 8 * n % TWO_64 / 8 % 64 == n % 64
  {
    var q, r := 8 * n / TWO_64, 8 * n % TWO_64;
    assert 8 * n == q * TWO_64 + r;
    var m := r / 8;
    assert r == 8 * m;
    assert n == q * 0x2000_0000_0000_0000 + m;
    DivModUnique(n, 64, q * 0x80_0000_0000_0000 + m / 64, m % 64);
  }

  lemma BitcountStep(n: nat, k: nat)
    ensures (8 * n % TWO_64 + 8 * k) % TWO_64 == 8 * (n + k) % TWO_64
  {
    var q, r := 8 * n / TWO_64, 8 * n % TWO_64;
    DivModUnique(8 * (n + k), TWO_64, q + (r + 8 * k) / TWO_64, (r + 8 * k) % TWO_64);
  }

  /** memcpy(dst + at, src, |src|) */
  method CopyInto(dst: array<byte>, at: nat, src: seq<byte>)
    requires at + |src| <= dst.Length
    modifies dst
    ensures dst[..at] == old(dst[..at]) && dst[at..at + |src|] == src
    ensures dst[at + |src|..] == old(dst[at + |src|..])
    ensures dst[..at + |src|] == old(dst[..at]) + src
  {
    for i := 0 to |src|
      invariant dst[..at] == old(dst[..at])
      invariant dst[at..at + i] == src[..i]
      invariant dst[at + i..] == old(dst[at + i..])
    {
      dst[at + i] := src[i];
      assert dst[at..at + i + 1] == dst[at..at + i] + [src[i]] == src[..i + 1];
      assert dst[at + i + 1..] == old(dst[at + i..])[1..];
    }
    assert dst[..at + |src|] == dst[..at] + dst[at..at + |src|];
  }

  method Sha256(f: Compression, data: seq<byte>) returns (digest: seq<byte>)
    ensures digest == Hash(f, data)
  {
    var ctx := new Context(f);
    ctx.Update(data);
    assert [] + data == data;
    digest := ctx.Final();
  }

  /** However a message is cut into updates, the digest is that of the whole message. */
  method HashInPieces(f: Compression, pieces: seq<seq<byte>>) returns (digest: seq<byte>)
    ensures digest == Hash(f, Joined(pieces))
  {
    var ctx := new Context(f);
    for i := 0 to |pieces|
      invariant ctx.Valid() && fresh(ctx) && fresh(ctx.buffer) && ctx.f == f
      invariant ctx.absorbed == Joined(pieces[..i])
    {
      ctx.Update(pieces[i]);
      assert pieces[..i + 1][..i] == pieces[..i];
    }
    assert pieces[..|pieces|] == pieces;
    digest := ctx.Final();
  }

  function Joined(pieces: seq<seq<byte>>): seq<byte> {
    if pieces == [] then [] else Joined(pieces[..|pieces| - 1]) + pieces[|pieces| - 1]
  }
}
