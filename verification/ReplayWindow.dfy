/** The receive window of the secure channel: src/advanced/secure_channel.cpp, lines 591-651, with the
    constants and fields of include/vgre/advanced/secure_channel.h, lines 303-312. */
module ReplayWindow {
  import opened Machine

  const WINDOW_BITS: nat := 2048
  const WORD_COUNT: nat := 32

  // ------------------------------------------------------------ the abstract window

  /** What the receiver remembers, as a plain set: every sequence number it ever accepted. */
  datatype History = History(accepted: set<int>, highest: int)

  ghost predicate Consistent(h: History) {
    h.accepted != {} ==> h.highest in h.accepted && forall s :: s in h.accepted ==> s <= h.highest
  }

  /** Section 3.4.3 of RFC 4303: refuse what is too old to judge and what was seen before. */
  function Acceptable(h: History, s: int): bool {
    h.accepted == {} || s > h.highest || (h.highest - s < WINDOW_BITS && s !in h.accepted)
  }

  function Receive(h: History, s: int): History {
    if !Acceptable(h, s) then h
    else History(h.accepted + {s}, if h.accepted == {} || s > h.highest then s else h.highest)
  }

  // ------------------------------------------------------------ whole runs

  function After(packets: seq<int>): History {
    if packets == [] then History({}, 0)
    else Receive(After(packets[..|packets| - 1]), packets[|packets| - 1])
  }

  /** The verdict on packet j of a run. */
  predicate Delivered(packets: seq<int>, j: nat)
    requires j < |packets|
  {
    Acceptable(After(packets[..j]), packets[j])
  }

  /** Some packet of the run with this number is delivered. */
  ghost predicate DeliveredNumber(packets: seq<int>, s: int) {
    exists i :: 0 <= i < |packets| && packets[i] == s && Delivered(packets, i)
  }

  lemma {:induction false} HistoryIsDeliveries(packets: seq<int>)
    ensures Consistent(After(packets))
    ensures forall s :: s in After(packets).accepted <==> DeliveredNumber(packets, s)
  {
    if packets != [] {
      var n := |packets| - 1;
      HistoryIsDeliveries(packets[..n]);
      ConsistentNext(After(packets[..n]), packets[n]);
      hide Consistent, DeliveredNumber;
      forall s: int
        ensures s in After(packets).accepted <==> DeliveredNumber(packets, s)
      {
        DeliveredLast(packets, s);
      }
    }
  }

  lemma ConsistentNext(h: History, s: int)
    requires Consistent(h)
    ensures Consistent(Receive(h, s))
  {
  }

  lemma DeliveredLast(packets: seq<int>, s: int)
    requires packets != []
    ensures var n := |packets| - 1;
      DeliveredNumber(packets, s) <==>
        DeliveredNumber(packets[..n], s) || (packets[n] == s && Delivered(packets, n))
  {
    var n := |packets| - 1;
    var before := packets[..n];
    forall i | 0 <= i < n
      ensures Delivered(before, i) == Delivered(packets, i)
    {
      assert before[..i] == packets[..i];
    }
    hide Delivered;
    if DeliveredNumber(before, s) {
      var i :| 0 <= i < n && before[i] == s && Delivered(before, i);
      assert packets[i] == s && Delivered(packets, i);
    }
    if DeliveredNumber(packets, s) && !(packets[n] == s && Delivered(packets, n)) {
      var i :| 0 <= i < |packets| && packets[i] == s && Delivered(packets, i);
      assert before[i] == s && Delivered(before, i);
    }
  }

  /** The verdict, in terms of the run alone: packet j is delivered exactly when no earlier delivered packet
      carries its number and none is 2048 or more ahead of it. */
  lemma DeliveredIff(packets: seq<int>, j: nat)
    requires j < |packets|
    ensures Delivered(packets, j) <==>
      forall i :: 0 <= i < j && Delivered(packets, i) ==>
        packets[i] != packets[j] && packets[i] - packets[j] < WINDOW_BITS
  {
    var before := packets[..j];
    HistoryIsDeliveries(before);
    assert forall i :: 0 <= i < j ==> before[..i] == packets[..i];
    assert forall i :: 0 <= i < j ==> Delivered(before, i) == Delivered(packets, i);
    var h := After(before);
    if Delivered(packets, j) {
      forall i | 0 <= i < j && Delivered(packets, i)
        ensures packets[i] != packets[j] && packets[i] - packets[j] < WINDOW_BITS
      {
        assert before[i] in h.accepted;
      }
    } else {
      assert h.highest in h.accepted;
      var top :| 0 <= top < j && before[top] == h.highest && Delivered(before, top);
      if packets[j] in h.accepted {
        var i :| 0 <= i < j && before[i] == packets[j] && Delivered(before, i);
        assert Delivered(packets, i) && packets[i] == packets[j];
      } else {
        assert Delivered(packets, top) && packets[top] - packets[j] >= WINDOW_BITS;
      }
    }
  }

  /** Under any reordering, loss or duplication, a sequence number is delivered at most once. */
  lemma AtMostOnce(packets: seq<int>, i: nat, j: nat)
    requires i < j < |packets| && packets[i] == packets[j]
    ensures !(Delivered(packets, i) && Delivered(packets, j))
  {
    DeliveredIff(packets, j);
  }

  /** If no packet lags an earlier one by 2048 or more, the first copy of every number is delivered. */
  lemma {:induction false} FirstCopyDelivered(packets: seq<int>, j: nat)
    requires j < |packets|
    requires forall i :: 0 <= i < j ==> packets[i] != packets[j] && packets[i] - packets[j] < WINDOW_BITS
    ensures Delivered(packets, j)
  {
    DeliveredIff(packets, j);
  }

  // ------------------------------------------------------------ the bitmap

  /** Bit `offset` of the multi-word bitmap, word 0 holding the most recent 64 numbers. */
  predicate BitAt(words: seq<uint64>, offset: nat)
    requires |words| == WORD_COUNT && offset < WINDOW_BITS
  {
    Bit(words[offset / 64], offset % 64)
  }

  /** Word i of the bitmap shifted left by 64 * ws + bs bits. */
  function ShiftedWord(words: seq<uint64>, ws: nat, bs: nat, i: nat): (w: uint64)
    requires |words| == WORD_COUNT && i < WORD_COUNT && bs < 64
  {
    if i < ws then 0
    else if bs == 0 then words[i - ws]
    else if i == ws then Shl(words[i - ws], bs)
    else
      ShiftedWordRange(words[i - ws], words[i - ws - 1], bs);
      Or(Shl(words[i - ws], bs), Shr(words[i - ws - 1], 64 - bs))
  }

  lemma ShiftedWordRange(x: uint64, y: uint64, bs: nat)
    requires 0 < bs < 64
    ensures Or(Shl(x, bs), Shr(y, 64 - bs)) < TWO_64
  {
    Pow2At64();
    ShrSmaller(y, 64 - bs);
    OrRange(Shl(x, bs), Shr(y, 64 - bs), 64);
  }

  lemma {:induction false} ShrSmaller(x: nat, s: nat)
    ensures Shr(x, s) <= x
  {
    if s != 0 {
      ShrSmaller(x / 2, s - 1);
    }
  }

  lemma ShiftedBit(words: seq<uint64>, ws: nat, bs: nat, i: nat, b: nat)
    requires |words| == WORD_COUNT && i < WORD_COUNT && bs < 64 && b < 64
    ensures Bit(ShiftedWord(words, ws, bs, i), b) ==
      (64 * ws + bs <= 64 * i + b && BitAt(words, 64 * i + b - (64 * ws + bs)))
  {
    hide Bit, Or, Shl, Shr;
    if i < ws {
      BitOfZero(b);
    } else {
      var d := 64 * i + b - (64 * ws + bs);
      var src := i - ws;
      if b >= bs {
        DivModUnique(d, 64, src, b - bs);
      } else if src > 0 {
        DivModUnique(d, 64, src - 1, 64 + b - bs);
      }
      if bs > 0 {
        BitShl(words[src], bs, b);
        if src > 0 {
          BitShr(words[src - 1], 64 - bs, b);
          BitOr(Shl(words[src], bs), Shr(words[src - 1], 64 - bs), b);
          if b >= bs {
            Pow2At64();
            BitOutOfRange(words[src - 1], 64, 64 - bs + b);
          }
        }
      }
    }
  }

  /** The bitmap is exactly the accepted set restricted to the window behind `highest`. */
  ghost predicate Mirrors(words: seq<uint64>, highest: int, accepted: set<int>)
    requires |words| == WORD_COUNT
  {
    forall offset :: 0 <= offset < WINDOW_BITS ==> (BitAt(words, offset) <==> highest - offset in accepted)
  }

  ghost predicate ShiftedBy(before: seq<uint64>, after: seq<uint64>, advance: nat)
    requires |before| == |after| == WORD_COUNT
  {
    forall offset :: 0 <= offset < WINDOW_BITS ==>
      BitAt(after, offset) == (advance <= offset && BitAt(before, offset - advance))
  }

  ghost predicate WithBit(before: seq<uint64>, after: seq<uint64>, offset: nat)
    requires |before| == |after| == WORD_COUNT
  {
    forall o :: 0 <= o < WINDOW_BITS ==> BitAt(after, o) == (o == offset || BitAt(before, o))
  }

  lemma ShiftedWords(before: seq<uint64>, after: seq<uint64>, advance: nat)
    requires |before| == |after| == WORD_COUNT
    requires forall k :: 0 <= k < WORD_COUNT ==> after[k] == ShiftedWord(before, advance / 64, advance % 64, k)
    ensures ShiftedBy(before, after, advance)
  {
    forall offset | 0 <= offset < WINDOW_BITS
      ensures BitAt(after, offset) == (advance <= offset && BitAt(before, offset - advance))
    {
      hide Bit, ShiftedWord;
      ShiftedBit(before, advance / 64, advance % 64, offset / 64, offset % 64);
    }
  }

  lemma AdvanceMirrors(w0: seq<uint64>, w1: seq<uint64>, w2: seq<uint64>, h: History, s: int)
    requires |w0| == |w1| == |w2| == WORD_COUNT && Consistent(h) && h.accepted != {} && s > h.highest
    requires Mirrors(w0, h.highest, h.accepted) && ShiftedBy(w0, w1, s - h.highest) && WithBit(w1, w2, 0)
    ensures Mirrors(w2, s, h.accepted + {s})
  {
    hide BitAt;
    forall offset | 0 <= offset < WINDOW_BITS
      ensures BitAt(w2, offset) <==> s - offset in h.accepted + {s}
    {
      var advance := s - h.highest;
      assert BitAt(w2, offset) == (offset == 0 || BitAt(w1, offset));
      if advance <= offset {
        assert BitAt(w1, offset) == BitAt(w0, offset - advance);
        assert h.highest - (offset - advance) == s - offset;
      } else {
        assert !BitAt(w1, offset);
      }
    }
  }

  lemma MarkMirrors(w0: seq<uint64>, w1: seq<uint64>, h: History, s: int)
    requires |w0| == |w1| == WORD_COUNT && 0 <= h.highest - s < WINDOW_BITS
    requires Mirrors(w0, h.highest, h.accepted) && WithBit(w0, w1, h.highest - s)
    ensures Mirrors(w1, h.highest, h.accepted + {s})
  {
    hide BitAt;
    forall offset | 0 <= offset < WINDOW_BITS
      ensures BitAt(w1, offset) <==> h.highest - offset in h.accepted + {s}
    {
      assert BitAt(w1, offset) == (offset == h.highest - s || BitAt(w0, offset));
      assert BitAt(w0, offset) <==> h.highest - offset in h.accepted;
    }
  }

  class Window {
    var bitmap: array<uint64>
    var highest: uint64
    var seeded: bool
    ghost var accepted: set<int>

    ghost function Abs(): History
      reads this
    {
      History(accepted, highest)
    }

    ghost predicate Valid()
      reads this, bitmap
    {
      && bitmap.Length == WORD_COUNT
      && Consistent(Abs())
      && (seeded <==> accepted != {})
      && (seeded ==> Mirrors(bitmap[..], highest, accepted))
    }

    constructor ()
      ensures Valid() && fresh(bitmap)
      ensures Abs() == After([])
    {
      bitmap := new uint64[WORD_COUNT](_ => 0);
      highest := 0;
      seeded := false;
      accepted := {};
    }

    method Clear()
      requires bitmap.Length == WORD_COUNT
      modifies bitmap
      ensures forall offset :: 0 <= offset < WINDOW_BITS ==> !BitAt(bitmap[..], offset)
    {
      for i := 0 to WORD_COUNT
        invariant forall k :: 0 <= k < i ==> bitmap[k] == 0
      {
        bitmap[i] := 0;
      }
      forall offset | 0 <= offset < WINDOW_BITS
        ensures !BitAt(bitmap[..], offset)
      {
        BitOfZero(offset % 64);
      }
    }

    /** Left shift of the whole bitmap by `advance` bits, through a temporary copy. */
    method ShiftLeft(advance: nat)
      requires bitmap.Length == WORD_COUNT && advance < WINDOW_BITS
      modifies bitmap
      ensures ShiftedBy(old(bitmap[..]), bitmap[..], advance)
    {
      hide Shl, Shr, Or, Bit;
      ghost var start := bitmap[..];
      var ws := advance / 64;
      var bs := advance % 64;
      var tmp: array<uint64> := new uint64[WORD_COUNT](_ => 0);
      for i := 0 to WORD_COUNT
        invariant bitmap[..] == start
        invariant forall k :: 0 <= k < i ==> tmp[k] == ShiftedWord(start, ws, bs, k)
        invariant forall k :: i <= k < WORD_COUNT ==> tmp[k] == 0
      {
        var src := if ws <= i then i - ws else WORD_COUNT;
        if src < WORD_COUNT {
          if bs == 0 {
            tmp[i] := bitmap[src];
          } else {
            tmp[i] := Shl(bitmap[src], bs);
            if src > 0 {
              ShiftedWordRange(bitmap[src], bitmap[src - 1], bs);
              tmp[i] := Or(tmp[i], Shr(bitmap[src - 1], 64 - bs));
            }
          }
        }
      }
      for i := 0 to WORD_COUNT
        invariant forall k :: 0 <= k < i ==> bitmap[k] == ShiftedWord(start, ws, bs, k)
        invariant forall k :: 0 <= k < WORD_COUNT ==> tmp[k] == ShiftedWord(start, ws, bs, k)
      {
        bitmap[i] := tmp[i];
      }
      ShiftedWords(start, bitmap[..], advance);
    }

    /** bitmap[offset / 64] |= 1 << (offset % 64) */
    method SetBit(offset: nat)
      requires bitmap.Length == WORD_COUNT && offset < WINDOW_BITS
      modifies bitmap
      ensures WithBit(old(bitmap[..]), bitmap[..], offset)
    {
      ghost var start := bitmap[..];
      var word, bit := offset / 64, offset % 64;
      OneShifted(bit);
      Pow2At64();
      OrRange(bitmap[word], Shl(1, bit), 64);
      bitmap[word] := Or(bitmap[word], Shl(1, bit));
      forall o | 0 <= o < WINDOW_BITS
        ensures BitAt(bitmap[..], o) == (o == offset || BitAt(start, o))
      {
        if o / 64 == word {
          BitOr(start[word], Pow2(bit), o % 64);
          BitOfPow2(bit, o % 64);
        }
      }
    }

    /** The first packet ever. */
    method Seed(s: uint64)
      requires Valid() && !seeded
      modifies this, bitmap
      ensures Valid() && bitmap == old(bitmap)
      ensures accepted == {s as int} && highest == s
    {
      hide BitAt;
      highest := s;
      Clear();
      SetBit(0);
      seeded := true;
      accepted := {s as int};
    }

    /** Everything further back than the window is forgotten. */
    method Age(advance: nat)
      requires bitmap.Length == WORD_COUNT
      modifies bitmap
      ensures ShiftedBy(old(bitmap[..]), bitmap[..], advance)
    {
      if advance >= WINDOW_BITS {
        Clear();
      } else {
        ShiftLeft(advance);
      }
    }

    /** A packet ahead of the window. */
    method Advance(s: uint64)
      requires Valid() && seeded && s > highest
      modifies this, bitmap
      ensures Valid() && bitmap == old(bitmap)
      ensures accepted == old(accepted) + {s as int} && highest == s
    {
      hide BitAt, ShiftedBy, WithBit, Mirrors;
      ghost var w0, h := bitmap[..], Abs();
      Age(s - highest);
      ghost var w1 := bitmap[..];
      SetBit(0);
      AdvanceMirrors(w0, w1, bitmap[..], h, s);
      highest := s;
      accepted := accepted + {s as int};
    }

    /** The replay decision on one authenticated packet. */
    method Check(s: uint64) returns (ok: bool)
      requires Valid()
      modifies this, bitmap
      ensures Valid() && bitmap == old(bitmap)
      ensures ok == Acceptable(old(Abs()), s)
      ensures Abs() == Receive(old(Abs()), s)
    {
      if !seeded {
        Seed(s);
      } else if s > highest {
        Advance(s);
      } else {
        hide Bit, And, Or, Shl, Pow2;
        var offset := highest - s;
        if offset >= WINDOW_BITS {
          return false;
        }
        var word, bit := offset / 64, offset % 64;
        OneShifted(bit);
        AndPow2(bitmap[word], bit);
        assert BitAt(bitmap[..], offset) == Bit(bitmap[word], bit);
        if And(bitmap[word], Shl(1, bit)) != 0 {
          return false;
        }
        ghost var w0 := bitmap[..];
        SetBit(offset);
        MarkMirrors(w0, bitmap[..], Abs(), s);
        accepted := accepted + {s as int};
      }
      ok := true;
    }
  }

  /** A channel's lifetime: the class gives each packet of a run the verdict the theorems above speak of. */
  method DeliverAll(packets: seq<uint64>) returns (verdicts: seq<bool>)
    ensures |verdicts| == |packets|
    ensures forall j :: 0 <= j < |packets| ==> verdicts[j] == Delivered(packets, j)
  {
    var window := new Window();
    verdicts := [];
    for i := 0 to |packets|
      invariant window.Valid() && fresh(window) && fresh(window.bitmap)
      invariant window.Abs() == After(packets[..i])
      invariant |verdicts| == i
      invariant forall j :: 0 <= j < i ==> verdicts[j] == Delivered(packets, j)
    {
      var ok := window.Check(packets[i]);
      verdicts := verdicts + [ok];
      assert packets[..i + 1][..i] == packets[..i];
    }
  }

  lemma OneShifted(bit: nat)
    requires bit < 64
    ensures Shl(1, bit) == Pow2(bit) < Pow2(64)
  {
    hide Pow2, Shl;
    Pow2At64();
    Pow2AtMost(bit + 1);
    Pow2Next(bit);
    ShlSmall(1, bit);
  }
}
