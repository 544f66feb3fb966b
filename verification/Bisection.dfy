/** Where the partitioner cuts, as a function of boxes and capacities: src/advanced/workload_partitioner.cpp,
    lines 49-108, and exactly when its arithmetic is defined. */
module Bisection {
  import opened Machine
  import opened Sorting

  type Dims = s: seq<uint32> | |s| == 3 witness [0, 0, 0]

  const TWO_32: int := 0x1_0000_0000

  predicate Ordered(start: Dims, end: Dims) { forall i :: 0 <= i < 3 ==> start[i] <= end[i] }

  function Extent(start: Dims, end: Dims, i: nat): int
    requires i < 3
  {
    end[i] as int - start[i]
  }

  /** The first of the dimensions with the largest extent. */
  function Widest(start: Dims, end: Dims): (d: nat)
    ensures d < 3 && forall i :: 0 <= i < 3 ==> Extent(start, end, i) <= Extent(start, end, d)
  {
    var d := if Extent(start, end, 1) > Extent(start, end, 0) then 1 else 0;
    if Extent(start, end, 2) > Extent(start, end, d) then 2 else d
  }

  predicate Cuttable(start: Dims, end: Dims) { Extent(start, end, Widest(start, end)) > 1 }

  // ------------------------------------------------------------ sums of capacities

  predicate AtLeast(x: real, y: real) { x >= y }

  predicate Descending(caps: seq<real>) { Sorted(caps, AtLeast) }

  lemma AtLeastOrder()
    ensures TotalOrder(AtLeast)
  {
  }

  function Sum(caps: seq<real>): real {
    if caps == [] then 0.0 else Sum(caps[..|caps| - 1]) + caps[|caps| - 1]
  }

  lemma SumNext(caps: seq<real>, i: nat)
    requires i < |caps|
    ensures Sum(caps[..i + 1]) == Sum(caps[..i]) + caps[i]
  {
    assert caps[..i + 1][..i] == caps[..i];
  }

  lemma SumEnds(caps: seq<real>)
    ensures Sum(caps[..0]) == 0.0 && Sum(caps[..|caps|]) == Sum(caps)
  {
    assert caps[..|caps|] == caps;
  }

  /** Every value lies between lo and hi times, so the sum does. */
  lemma {:induction false} SumBounds(caps: seq<real>, lo: real, hi: real)
    requires forall i :: 0 <= i < |caps| ==> lo <= caps[i] <= hi
    ensures |caps| as real * lo <= Sum(caps) <= |caps| as real * hi
  {
    if caps != [] {
      var n := |caps| - 1;
      SumBounds(caps[..n], lo, hi);
      OneMore(n as real, lo);
      OneMore(n as real, hi);
    }
  }

  lemma {:induction false} SumRest(caps: seq<real>, k: nat)
    requires k <= |caps| && forall i :: k <= i < |caps| ==> caps[i] >= 0.0
    ensures Sum(caps[..k]) <= Sum(caps)
    decreases |caps|
  {
    if k < |caps| {
      SumRest(caps[..|caps| - 1], k);
      assert caps[..|caps| - 1][..k] == caps[..k];
    } else {
      assert caps[..k] == caps;
    }
  }

  // ------------------------------------------------------------ the two groups

  /** How many nodes the first group takes: the fewest from k on that hold half of the total. */
  function FirstGroup(caps: seq<real>, k: nat): (r: nat)
    requires 1 <= k < |caps|
    ensures k <= r < |caps|
    ensures forall j :: k <= j < r ==> Sum(caps[..j]) < Sum(caps) / 2.0
    ensures r < |caps| - 1 ==> Sum(caps[..r]) >= Sum(caps) / 2.0
    decreases |caps| - k
  {
    if Sum(caps[..k]) >= Sum(caps) / 2.0 || k == |caps| - 1 then k else FirstGroup(caps, k + 1)
  }

  /**
   * In falling order the loop always stops at half of the total with a node to spare, whatever the signs:
   * the smallest capacity is at most the average and the largest at least.  So both groups are proper.
   */
  lemma HalfIsReached(caps: seq<real>)
    requires |caps| >= 2 && Descending(caps)
    ensures Sum(caps[..FirstGroup(caps, 1)]) >= Sum(caps) / 2.0
  {
    hide *;
    var k := FirstGroup(caps, 1);
    if Sum(caps) >= 0.0 {
      AllButLast(caps);
    } else {
      FirstAlone(caps);
    }
  }

  lemma AllButLast(caps: seq<real>)
    requires |caps| >= 2 && Descending(caps) && Sum(caps) >= 0.0
    ensures Sum(caps[..|caps| - 1]) >= Sum(caps) / 2.0
  {
    hide Sum, Descending;
    var n, last := |caps|, caps[|caps| - 1];
    Between(caps);
    SumBounds(caps, last, caps[0]);
    HalfOfAverage(n as real, Sum(caps), last);
    SumNext(caps, n - 1);
    SumEnds(caps);
  }

  lemma FirstAlone(caps: seq<real>)
    requires |caps| >= 2 && Descending(caps) && Sum(caps) < 0.0
    ensures Sum(caps[..1]) >= Sum(caps) / 2.0
  {
    hide Sum, Descending;
    var n, first := |caps|, caps[0];
    Between(caps);
    SumBounds(caps, caps[n - 1], first);
    MinusProduct(n as real, first);
    HalfOfAverage(n as real, -Sum(caps), -first);
    SumNext(caps, 0);
    SumEnds(caps);
  }

  lemma MinusProduct(n: real, x: real)
    ensures n * -x == -(n * x)
  {
  }

  lemma Between(caps: seq<real>)
    requires caps != [] && Descending(caps)
    ensures forall i :: 0 <= i < |caps| ==> caps[|caps| - 1] <= caps[i] <= caps[0]
  {
    forall i | 0 <= i < |caps|
      ensures caps[|caps| - 1] <= caps[i] <= caps[0]
    {
      assert i > 0 ==> AtLeast(caps[0], caps[i]);
      assert i < |caps| - 1 ==> AtLeast(caps[i], caps[|caps| - 1]);
    }
  }

  /** What is at most the average of two or more is at most half of a total that is not negative. */
  lemma HalfOfAverage(n: real, total: real, x: real)
    requires n >= 2.0 && total >= 0.0 && n * x <= total
    ensures x <= total / 2.0
  {
    if x > 0.0 {
      assert n * x == 2.0 * x + (n - 2.0) * x;
      NonNegativeProduct(n - 2.0, x);
    }
  }

  lemma NonNegativeProduct(x: real, y: real)
    requires x >= 0.0 && y >= 0.0
    ensures x * y >= 0.0
  {
  }

  // ------------------------------------------------------------ the cut

  /** std::round: half away from zero. */
  function Round(x: real): int { if x >= 0.0 then (x + 0.5).Floor else -(0.5 - x).Floor }

  function Share(current: real, total: real, extent: int): real
    requires total != 0.0
  {
    current / total * extent as real
  }

  /** The division is by something other than zero, and its rounded product fits in 32 bits. */
  predicate Castable(current: real, total: real, extent: int) {
    total != 0.0 && 0 <= Round(Share(current, total, extent)) < TWO_32
  }

  /** start + round(share), wrapping around, then pushed strictly inside. */
  function CutAt(start: uint32, end: uint32, current: real, total: real): (at: uint32)
    requires start + 1 < end && Castable(current, total, end as int - start)
    ensures start < at < end
  {
    var sum := (start as int + Round(Share(current, total, end as int - start))) % TWO_32;
    var low := if sum <= start then start + 1 else sum;
    if low >= end then end - 1 else low
  }

  lemma ShareInside(current: real, total: real, extent: int)
    requires 0.0 <= current <= total && total > 0.0 && extent >= 0
    ensures 0.0 <= Share(current, total, extent) <= extent as real
    ensures 0 <= Round(Share(current, total, extent)) <= extent
  {
    var ratio := current / total;
    assert ratio * total == current;
    if ratio < 0.0 {
      StrictProduct(-ratio, total);
    }
    if ratio > 1.0 {
      StrictProduct(ratio - 1.0, total);
    }
    NonNegativeProduct(ratio, extent as real);
    NonNegativeProduct(1.0 - ratio, extent as real);
  }

  lemma StrictProduct(x: real, y: real)
    requires x > 0.0 && y > 0.0
    ensures x * y > 0.0
  {
  }

  /** The cut is where the capacities say, to within one block. */
  lemma CutIsProportional(start: uint32, end: uint32, current: real, total: real)
    requires start + 1 < end && 0.0 <= current <= total && total > 0.0
    ensures Castable(current, total, end as int - start)
    ensures var share := Share(current, total, end as int - start);
      share - 1.0 <= (CutAt(start, end, current, total) - start) as real <= share + 1.0
  {
    hide Share, Round;
    var extent := end as int - start;
    ShareInside(current, total, extent);
    RoundClose(Share(current, total, extent));
    PushedInside(start, end, Round(Share(current, total, extent)));
  }

  lemma RoundClose(x: real)
    ensures x - 0.5 <= Round(x) as real <= x + 0.5
  {
  }

  lemma PushedInside(start: uint32, end: uint32, steps: int)
    requires start + 1 < end && 0 <= steps <= end as int - start
    ensures (start as int + steps) % TWO_32 == start as int + steps
    ensures steps == 0 || steps == end as int - start || start < start as int + steps < end
  {
    DivModUnique(start as int + steps, TWO_32, 0, start as int + steps);
  }

  // ------------------------------------------------------------ when the recursion is defined

  /** No step of the recursion on this box divides by zero or converts a number outside of uint32. */
  predicate Defined(start: Dims, end: Dims, caps: seq<real>)
    requires Ordered(start, end)
    decreases |caps|
  {
    |caps| <= 1 || !Cuttable(start, end) ||
    var d, k := Widest(start, end), FirstGroup(caps, 1);
    var current, total := Sum(caps[..k]), Sum(caps);
    Castable(current, total, Extent(start, end, d)) &&
    var at := CutAt(start[d], end[d], current, total);
    Defined(start, end[d := at], caps[..k]) && Defined(start[d := at], end, caps[k..])
  }

  /** The box that is left when every node of positive capacity has been served. */
  function Leftover(start: Dims, end: Dims, caps: seq<real>): (box: (Dims, Dims))
    requires Ordered(start, end)
    ensures Ordered(box.0, box.1)
    decreases |caps|
  {
    if |caps| <= 1 || !Cuttable(start, end) || caps[0] <= 0.0 then (start, end)
    else
      var d, k := Widest(start, end), FirstGroup(caps, 1);
      var current, total := Sum(caps[..k]), Sum(caps);
      if !Castable(current, total, Extent(start, end, d)) then (start, end)
      else Leftover(start[d := CutAt(start[d], end[d], current, total)], end, caps[k..])
  }

  predicate IsZero(x: real) { x == 0.0 }

  function Zeros(caps: seq<real>): nat { Count(caps, IsZero) }

  predicate NonNegative(caps: seq<real>) { forall i :: 0 <= i < |caps| ==> caps[i] >= 0.0 }

  /**
   * For capacities that are not negative, the partitioner's arithmetic is defined if and only if at most one
   * of them is zero, or the box that is left for the zero ones cannot be cut any more.
   */
  lemma {:induction false} DefinedIff(start: Dims, end: Dims, caps: seq<real>)
    requires Ordered(start, end) && Descending(caps) && NonNegative(caps)
    ensures var box := Leftover(start, end, caps);
      Defined(start, end, caps) <==> Zeros(caps) <= 1 || !Cuttable(box.0, box.1)
    decreases |caps|
  {
    hide Sum, FirstGroup, Widest, CutAt, Share, Count, Round, Descending;
    if |caps| <= 1 {
      CountAll(caps, IsZero);
    } else if Cuttable(start, end) {
      if caps[0] <= 0.0 {
        AllZero(caps);
      } else {
        var d, k := Widest(start, end), FirstGroup(caps, 1);
        var current, total := Sum(caps[..k]), Sum(caps);
        PositiveCut(start, end, caps);
        var at := CutAt(start[d], end[d], current, total);
        DefinedIff(start, end[d := at], caps[..k]);
        DefinedIff(start[d := at], end, caps[k..]);
      }
    }
  }

  lemma AllZero(caps: seq<real>)
    requires |caps| >= 2 && Descending(caps) && NonNegative(caps) && caps[0] <= 0.0
    ensures Sum(caps) == 0.0 && Zeros(caps) == |caps|
  {
    Between(caps);
    SumBounds(caps, 0.0, 0.0);
    CountAll(caps, IsZero);
  }

  /** With a positive capacity the cut is defined, the first group is positive, and the zeros are in the second. */
  lemma PositiveCut(start: Dims, end: Dims, caps: seq<real>)
    requires Ordered(start, end) && Cuttable(start, end)
    requires |caps| >= 2 && Descending(caps) && NonNegative(caps) && caps[0] > 0.0
    ensures
      var k := FirstGroup(caps, 1);
      && Castable(Sum(caps[..k]), Sum(caps), Extent(start, end, Widest(start, end)))
      && Descending(caps[..k]) && Descending(caps[k..]) && NonNegative(caps[..k]) && NonNegative(caps[k..])
      && Zeros(caps[..k]) == 0 && Zeros(caps[k..]) == Zeros(caps)
  {
    hide *;
    WidestExtent(start, end);
    PositiveShare(caps, Extent(start, end, Widest(start, end)));
    PositiveFront(caps);
    FrontZeros(caps, FirstGroup(caps, 1));
    Parts(caps, FirstGroup(caps, 1));
  }

  lemma WidestExtent(start: Dims, end: Dims)
    ensures Cuttable(start, end) ==> Extent(start, end, Widest(start, end)) > 1
    ensures Ordered(start, end) ==> 0 <= Extent(start, end, Widest(start, end)) < TWO_32
  {
  }

  lemma PositiveShare(caps: seq<real>, extent: int)
    requires |caps| >= 2 && Descending(caps) && NonNegative(caps) && caps[0] > 0.0 && 0 <= extent < TWO_32
    ensures Castable(Sum(caps[..FirstGroup(caps, 1)]), Sum(caps), extent)
  {
    hide FirstGroup, Share, Round, Descending, Sum;
    HalfIsReached(caps);
    SumRest(caps, FirstGroup(caps, 1));
    SumRest(caps, 1);
    SumNext(caps, 0);
    SumEnds(caps);
    ShareInside(Sum(caps[..FirstGroup(caps, 1)]), Sum(caps), extent);
  }

  /** The first group ends with a positive capacity: without it half would have been reached before. */
  lemma PositiveFront(caps: seq<real>)
    requires |caps| >= 2 && Descending(caps) && NonNegative(caps) && caps[0] > 0.0
    ensures caps[FirstGroup(caps, 1) - 1] > 0.0
  {
    hide FirstGroup, Descending, Sum;
    HalfIsReached(caps);
    SumNext(caps, FirstGroup(caps, 1) - 1);
  }

  lemma FrontZeros(caps: seq<real>, k: nat)
    requires Descending(caps) && NonNegative(caps) && 1 <= k <= |caps| && caps[k - 1] > 0.0
    ensures Zeros(caps[..k]) == 0 && Zeros(caps[k..]) == Zeros(caps)
  {
    hide Count;
    forall i | 0 <= i < k
      ensures !IsZero(caps[..k][i])
    {
      assert i < k - 1 ==> AtLeast(caps[i], caps[k - 1]);
    }
    CountAll(caps[..k], IsZero);
    assert caps[..k] + caps[k..] == caps;
    CountConcat(caps[..k], caps[k..], IsZero);
  }

  lemma Parts(caps: seq<real>, k: nat)
    requires k <= |caps|
    ensures Descending(caps) ==> Descending(caps[..k]) && Descending(caps[k..])
    ensures NonNegative(caps) ==> NonNegative(caps[..k]) && NonNegative(caps[k..])
  {
  }

  /** Two nodes without capacity on two blocks: the source divides zero by zero. */
  lemma TwoZerosUndefined()
    ensures !Defined([0, 0, 0], [2, 1, 1], [0.0, 0.0])
  {
    AllZero([0.0, 0.0]);
    hide Sum, FirstGroup, Share, Round;
  }

  /** A third node with capacity takes one of the blocks, and the two others never get to be divided. */
  lemma TwoZerosDefined()
    ensures Defined([0, 0, 0], [2, 1, 1], [5.0, 0.0, 0.0])
  {
    hide *;
    var start: Dims, end: Dims, caps := [0, 0, 0], [2, 1, 1], [5.0, 0.0, 0.0];
    TwoBlocks();
    FallingCaps(5.0);
    PositiveCut(start, end, caps);
    LeftoverNext(start, end, caps);
    LeftoverUncut([1, 0, 0], end, caps[FirstGroup(caps, 1)..]);
    assert start[0 := 1] == [1, 0, 0];
    DefinedIff(start, end, caps);
  }

  lemma TwoBlocks()
    ensures Ordered([0, 0, 0], [2, 1, 1]) && Cuttable([0, 0, 0], [2, 1, 1]) && Widest([0, 0, 0], [2, 1, 1]) == 0
    ensures Ordered([1, 0, 0], [2, 1, 1]) && !Cuttable([1, 0, 0], [2, 1, 1])
  {
  }

  lemma FallingCaps(x: real)
    requires x > 0.0
    ensures Descending([x, 0.0, 0.0]) && NonNegative([x, 0.0, 0.0])
  {
  }

  lemma LeftoverNext(start: Dims, end: Dims, caps: seq<real>)
    requires Ordered(start, end) && Cuttable(start, end) && |caps| >= 2 && caps[0] > 0.0
    requires Castable(Sum(caps[..FirstGroup(caps, 1)]), Sum(caps), Extent(start, end, Widest(start, end)))
    ensures var d, k := Widest(start, end), FirstGroup(caps, 1);
      var at := CutAt(start[d], end[d], Sum(caps[..k]), Sum(caps));
      Leftover(start, end, caps) == Leftover(start[d := at], end, caps[k..])
  {
    hide Sum, FirstGroup, Share, Round, Widest, CutAt;
  }

  lemma LeftoverUncut(start: Dims, end: Dims, caps: seq<real>)
    requires Ordered(start, end) && !Cuttable(start, end)
    ensures Leftover(start, end, caps) == (start, end)
  {
  }

  // ------------------------------------------------------------ sorted capacities

  lemma {:induction false} SortOfSorted(caps: seq<real>)
    requires Descending(caps)
    ensures Sort(caps, AtLeast) == caps
  {
    if |caps| == 1 {
      assert caps == [caps[0]] + [];
      assert caps[1..] == [];
    } else if caps != [] {
      SortOfSorted(caps[1..]);
      assert AtLeast(caps[0], caps[1]);
    }
  }
}
