/** Creating and validating whole plans: src/advanced/workload_partitioner.cpp, lines 119-235. */
module PlanValidation {
  import opened Machine
  import opened Bisection
  import opened Partitioner
  import Sorting

  // ------------------------------------------------------------ validatePlan

  predicate InBounds(slices: seq<Slice>, grid: Dims) {
    forall s :: s in slices ==> Ordered(s.start, s.end) && Ordered(s.end, grid)
  }

  /** What `validatePlan` looks at: bounds and volumes in wrapping 64-bit arithmetic, never overlap. */
  predicate Accepts(grid: Dims, totalPartitions: uint32, slices: seq<Slice>) {
    && slices != [] && totalPartitions != 0
    && Volume([0, 0, 0], grid) % TWO_64 != 0
    && InBounds(slices, grid)
    && TotalVolume(slices) % TWO_64 == Volume([0, 0, 0], grid) % TWO_64
  }

  method ValidatePlan(plan: PartitionPlan) returns (ok: bool)
    ensures ok == Accepts(plan.originalGrid, plan.totalPartitions, plan.slices)
  {
    if plan.slices == [] || plan.totalPartitions == 0 {
      return false;
    }
    var grid := plan.originalGrid;
    var zero: Dims := [0, 0, 0];
    var expected := WrappedVolume(zero, grid);
    if expected == 0 {
      return false;
    }
    var actual: uint64 := 0;
    var k := 0;
    while k < |plan.slices|
      invariant 0 <= k <= |plan.slices|
      invariant InBounds(plan.slices[..k], grid)
      invariant actual == TotalVolume(plan.slices[..k]) % TWO_64
    {
      var s := plan.slices[k];
      assert plan.slices[..k + 1] == plan.slices[..k] + [s];
      assert plan.slices[..k + 1][..k] == plan.slices[..k];
      assert s in plan.slices;
      for i := 0 to 3
        invariant forall j :: 0 <= j < i ==> s.start[j] <= s.end[j] <= grid[j]
      {
        if s.end[i] < s.start[i] {
          return false;
        }
        if s.end[i] > grid[i] {
          return false;
        }
      }
      var v := WrappedVolume(s.start, s.end);
      WrappedSum(TotalVolume(plan.slices[..k]), Volume(s.start, s.end));
      actual := (actual as int + v) % TWO_64;
      k := k + 1;
    }
    assert plan.slices[..|plan.slices|] == plan.slices;
    ok := actual == expected;
  }

  /** A product of three 32-bit extents, each step taken modulo 2^64. */
  method WrappedVolume(start: Dims, end: Dims) returns (v: uint64)
    requires Ordered(start, end)
    ensures v == Volume(start, end) % TWO_64
  {
    var x, y, z := Extent(start, end, 0), Extent(start, end, 1), Extent(start, end, 2);
    v := x % TWO_64;
    v := (v as int * y) % TWO_64;
    v := (v as int * z) % TWO_64;
    WrappedProduct(x, y);
    WrappedProduct(x * y, z);
  }

  lemma WrappedProduct(x: int, y: int)
    ensures ((x % TWO_64) * y) % TWO_64 == (x * y) % TWO_64
  {
    var q, r := x / TWO_64, x % TWO_64;
    MulDistrib(q * TWO_64, r, y);
    assert (q * TWO_64) * y == (q * y) * TWO_64;
    var q', r' := (r * y) / TWO_64, (r * y) % TWO_64;
    MulDistrib(q * y, q', TWO_64);
    DivModUnique(x * y, TWO_64, q * y + q', r');
  }

  lemma WrappedSum(x: int, y: int)
    ensures (x % TWO_64 + y % TWO_64) % TWO_64 == (x + y) % TWO_64
  {
    var q, r := x / TWO_64, x % TWO_64;
    var q', r' := y / TWO_64, y % TWO_64;
    DivModUnique(x + y, TWO_64, q + q' + (r + r') / TWO_64, (r + r') % TWO_64);
  }

  // ------------------------------------------------------------ the partitioner

  /** `Undefined` stands for a division by zero or a conversion that the language gives no meaning. */
  datatype Result = Success | InvalidValue | Undefined

  /** The nodes that survive the filter, with measured speed scaled by the learned accuracy. */
  function ValidNodes(nodes: seq<Node>, factors: map<string, real>): seq<Node> {
    if nodes == [] then []
    else
      var n := nodes[|nodes| - 1];
      ValidNodes(nodes[..|nodes| - 1], factors) + Kept(n, factors)
  }

  function Kept(n: Node, factors: map<string, real>): seq<Node> {
    if n.cpuCores <= 0 || n.gflops <= 0.0 then []
    else if n.address in factors then
      [Scaled(n, factors[n.address])]
    else [n]
  }

  function Scaled(n: Node, factor: real): Node { n.(accuracy := factor, gflops := n.gflops * factor) }

  predicate FactorsInRange(factors: map<string, real>) {
    forall a :: a in factors ==> 0.1 <= factors[a] <= 1.0
  }

  /** A node that passes the filter but has no bandwidth, and so no capacity. */
  predicate Stalled(n: Node) { n.cpuCores > 0 && n.gflops > 0.0 && n.bandwidthGbps == 0.0 }

  /** Scaling keeps a node usable, and the filter leaves as many nodes without capacity as there are stalled ones. */
  lemma {:induction false} ValidNodesCapacity(nodes: seq<Node>, factors: map<string, real>)
    requires FactorsInRange(factors) && forall n :: n in nodes ==> n.bandwidthGbps >= 0.0
    ensures NonNegative(CapsOf(ValidNodes(nodes, factors)))
    ensures Zeros(CapsOf(ValidNodes(nodes, factors))) == Sorting.Count(nodes, Stalled)
  {
    hide NodeCap, CapsOf, Kept, Zeros, Stalled;
    if nodes == [] {
      NoCapacity();
    } else {
      var n, front := nodes[|nodes| - 1], nodes[..|nodes| - 1];
      assert nodes == front + [n] && n in nodes && forall m :: m in front ==> m in nodes;
      ValidNodesCapacity(front, factors);
      KeptCapacity(n, factors);
      JoinedCapacity(ValidNodes(front, factors), Kept(n, factors));
      Sorting.CountConcat(front, [n], Stalled);
      Sorting.CountOne(n, Stalled);
    }
  }

  lemma NoCapacity()
    ensures NonNegative(CapsOf([])) && Zeros(CapsOf([])) == 0
  {
  }

  lemma JoinedCapacity(a: seq<Node>, b: seq<Node>)
    ensures Zeros(CapsOf(a + b)) == Zeros(CapsOf(a)) + Zeros(CapsOf(b))
    ensures NonNegative(CapsOf(a)) && NonNegative(CapsOf(b)) ==> NonNegative(CapsOf(a + b))
  {
    hide NodeCap, Sorting.Count;
    assert CapsOf(a + b) == CapsOf(a) + CapsOf(b);
    Sorting.CountConcat(CapsOf(a), CapsOf(b), IsZero);
  }

  lemma KeptCapacity(n: Node, factors: map<string, real>)
    requires FactorsInRange(factors) && n.bandwidthGbps >= 0.0
    ensures NonNegative(CapsOf(Kept(n, factors)))
    ensures Zeros(CapsOf(Kept(n, factors))) == if Stalled(n) then 1 else 0
  {
    hide NodeCap;
    if n.cpuCores > 0 && n.gflops > 0.0 {
      var m := if n.address in factors then Scaled(n, factors[n.address]) else n;
      if n.address in factors {
        StrictProduct(n.gflops, factors[n.address]);
      }
      CapacitySign(m);
      assert Kept(n, factors) == [m] && CapsOf([m]) == [NodeCap(m)];
      Sorting.CountOne(NodeCap(m), IsZero);
    }
  }

  /**
   * For bandwidths that are not negative, planning is defined if and only if at most one usable node has
   * none, or the box that is left for those without cannot be cut.
   */
  lemma PlanDefinedIff(grid: Dims, nodes: seq<Node>, factors: map<string, real>)
    requires FactorsInRange(factors) && forall n :: n in nodes ==> n.bandwidthGbps >= 0.0
    ensures var caps := SortedCaps(ValidNodes(nodes, factors));
      var box := Leftover([0, 0, 0], grid, caps);
      Defined([0, 0, 0], grid, caps) <==> Sorting.Count(nodes, Stalled) <= 1 || !Cuttable(box.0, box.1)
  {
    hide NodeCap, Sorting.Count, Sorting.Sort, Defined, Leftover;
    var valid := ValidNodes(nodes, factors);
    ValidNodesCapacity(nodes, factors);
    SortedFacts(valid);
    DefinedIff([0, 0, 0], grid, SortedCaps(valid));
  }

  lemma SortedFacts(nodes: seq<Node>)
    ensures Descending(SortedCaps(nodes)) && Zeros(SortedCaps(nodes)) == Zeros(CapsOf(nodes))
    ensures NonNegative(CapsOf(nodes)) ==> NonNegative(SortedCaps(nodes))
  {
    hide NodeCap;
    var caps := CapsOf(nodes);
    AtLeastOrder();
    Sorting.SortSorted(caps, AtLeast);
    Sorting.CountSort(caps, AtLeast, IsZero);
    Sorting.SortPermutes(caps, AtLeast);
    if NonNegative(caps) {
      forall i | 0 <= i < |caps|
        ensures SortedCaps(nodes)[i] >= 0.0
      {
        assert SortedCaps(nodes)[i] in multiset(SortedCaps(nodes));
        assert SortedCaps(nodes)[i] in caps;
      }
    }
  }

  class WorkloadPartitioner {
    var accuracyFactors: map<string, real>

    /** Factors are kept in [0.1, 1.0]. */
    predicate Valid()
      reads this
    {
      FactorsInRange(accuracyFactors)
    }

    constructor ()
      ensures Valid()
    {
      accuracyFactors := map[];
    }

    /** Exponential moving average of predicted / actual, seeded by the first observation. */
    method RecordActualExecution(address: string, predictedMs: real, actualMs: real)
      requires Valid()
      modifies this
      ensures Valid()
      ensures predictedMs <= 0.0 || actualMs <= 0.0 ==> accuracyFactors == old(accuracyFactors)
      ensures predictedMs > 0.0 && actualMs > 0.0 ==>
        var ratio := MinReal(predictedMs / actualMs, 1.0);
        var average := if address in old(accuracyFactors) then old(accuracyFactors)[address] * 0.75 + ratio * 0.25
                       else ratio;
        accuracyFactors == old(accuracyFactors)[address := MaxReal(0.1, MinReal(average, 1.0))]
    {
      if predictedMs <= 0.0 || actualMs <= 0.0 {
        return;
      }
      var ratio := MinReal(predictedMs / actualMs, 1.0);
      var factor := if address in accuracyFactors then accuracyFactors[address] else 0.0;
      if factor == 0.0 {
        factor := ratio;
      } else {
        factor := factor * (1.0 - 0.25) + ratio * 0.25;
      }
      factor := MaxReal(0.1, MinReal(factor, 1.0));
      accuracyFactors := accuracyFactors[address := factor];
    }

    /** createPartitionPlan, for any grid and any nodes. */
    method CreatePartitionPlan(gridDim: Dims, blockDim: Dims, nodes: seq<Node>, plan: PartitionPlan)
      returns (r: Result)
      modifies plan
      ensures r == InvalidValue <==>
        gridDim[0] == 0 || blockDim[0] == 0 || ValidNodes(nodes, accuracyFactors) == []
      ensures r == InvalidValue ==> unchanged(plan)
      ensures r == Undefined <==>
        r != InvalidValue && !Defined([0, 0, 0], gridDim, SortedCaps(ValidNodes(nodes, accuracyFactors)))
      ensures r == Success ==>
        && plan.originalGrid == gridDim && plan.blockDim == blockDim
        && plan.totalPartitions == |plan.slices| % TWO_32
        && Tiles(plan.slices, [0, 0, 0], gridDim, ValidNodes(nodes, accuracyFactors))
        && (forall k :: 0 <= k < |plan.slices| ==> plan.slices[k].id == k % TWO_32)
        && (Accepts(plan.originalGrid, plan.totalPartitions, plan.slices)
            <==> Volume([0, 0, 0], gridDim) % TWO_64 != 0 && |plan.slices| % TWO_32 != 0)
    {
      hide Tiles, NodeCap, Defined, SortedCaps;
      if gridDim[0] == 0 || blockDim[0] == 0 {
        return InvalidValue;
      }
      var validNodes := FilterNodes(nodes);
      if validNodes == [] {
        return InvalidValue;
      }
      plan.originalGrid := gridDim;
      plan.blockDim := blockDim;
      plan.slices := [];
      var start: Dims := [0, 0, 0];
      var ok := PartitionRecursive(start, gridDim, validNodes, plan);
      if !ok {
        return Undefined;
      }
      assert plan.slices[0..] == plan.slices;
      TilesAccepted(plan.slices, gridDim, validNodes);
      plan.totalPartitions := |plan.slices| % TWO_32;
      r := Success;
    }

    method FilterNodes(nodes: seq<Node>) returns (valid: seq<Node>)
      ensures valid == ValidNodes(nodes, accuracyFactors)
    {
      valid := [];
      for i := 0 to |nodes|
        invariant valid == ValidNodes(nodes[..i], accuracyFactors)
      {
        var node := nodes[i];
        ValidNodesStep(nodes, i, accuracyFactors);
        if node.cpuCores <= 0 || node.gflops <= 0.0 {
          assert valid + [] == valid;
          continue;
        }
        if node.address in accuracyFactors {
          var f := accuracyFactors[node.address];
          node := Scaled(node, f);
        }
        valid := valid + [node];
      }
      assert nodes[..|nodes|] == nodes;
    }
  }

  lemma ValidNodesStep(nodes: seq<Node>, i: nat, factors: map<string, real>)
    requires i < |nodes|
    ensures ValidNodes(nodes[..i + 1], factors) == ValidNodes(nodes[..i], factors) + Kept(nodes[i], factors)
  {
    assert nodes[..i + 1][..i] == nodes[..i];
  }

  /** A tiling passes validation unless its block count is a multiple of 2^64, or its slice count of 2^32. */
  lemma TilesAccepted(slices: seq<Slice>, grid: Dims, nodes: seq<Node>)
    requires Tiles(slices, [0, 0, 0], grid, nodes)
    ensures Accepts(grid, |slices| % TWO_32, slices) <==>
      Volume([0, 0, 0], grid) % TWO_64 != 0 && |slices| % TWO_32 != 0
  {
    forall s | s in slices
      ensures Ordered(s.start, s.end) && Ordered(s.end, grid)
    {
      assert Inside(s, [0, 0, 0], grid);
    }
  }

  /** A grid whose own valid plan is refused: 2^31 by 2^31 by 4 blocks. */
  lemma HugeGridRefused(slices: seq<Slice>, total: uint32)
    ensures !Accepts([0x8000_0000, 0x8000_0000, 4], total, slices)
  {
    assert Volume([0, 0, 0], [0x8000_0000, 0x8000_0000, 4]) == TWO_64;
  }

  // ------------------------------------------------------------ what acceptance proves

  lemma CoverNext(slices: seq<Slice>, s: Slice, p: Dims)
    ensures Cover(slices + [s], p) == Cover(slices, p) + if InBox(s.start, s.end, p) then 1 else 0
    ensures TotalVolume(slices + [s]) == TotalVolume(slices) + Volume(s.start, s.end)
  {
    assert (slices + [s])[..|slices|] == slices;
  }

  lemma NoSlices(p: Dims)
    ensures Cover([], p) == 0 && TotalVolume([]) == 0
  {
  }

  /** The header promises "no gaps, no overlaps"; two copies of one half of a grid are accepted. */
  lemma OverlapAccepted()
    ensures exists grid: Dims, slices: seq<Slice>, p: Dims, q: Dims ::
      && Accepts(grid, 2, slices)
      && InBox([0, 0, 0], grid, p) && Cover(slices, p) == 0
      && InBox([0, 0, 0], grid, q) && Cover(slices, q) == 2
  {
    hide Cover, TotalVolume;
    var half := Slice("a", 0, 1, 1.0, 0, [0, 0, 0], [1, 1, 1], [1, 1, 1]);
    var grid: Dims, p: Dims, q: Dims := [2, 1, 1], [1, 0, 0], [0, 0, 0];
    var slices := [] + [half] + [half];
    NoSlices(p);
    NoSlices(q);
    CoverNext([], half, p);
    CoverNext([], half, q);
    CoverNext([] + [half], half, p);
    CoverNext([] + [half], half, q);
    assert !InBox(half.start, half.end, p) && InBox(half.start, half.end, q);
    assert Accepts(grid, 2, slices) && InBox([0, 0, 0], grid, p) && InBox([0, 0, 0], grid, q);
  }

  /** Volumes are compared modulo 2^64: one slice of 2^62 blocks passes for a grid of 2^64 + 2^62. */
  lemma GapAccepted()
    ensures exists grid: Dims, slices: seq<Slice>, p: Dims ::
      && Accepts(grid, 1, slices) && NoOverlap(slices)
      && InBox([0, 0, 0], grid, p) && Cover(slices, p) == 0
  {
    hide Cover, TotalVolume;
    var grid: Dims, p: Dims := [0x8000_0000, 0x8000_0000, 5], [0, 0, 1];
    var layer: Dims := [0x8000_0000, 0x8000_0000, 1];
    var slice := Slice("a", 0, 1, 1.0, 0, [0, 0, 0], layer, layer);
    var slices := [] + [slice];
    NoSlices(p);
    CoverNext([], slice, p);
    forall q: Dims
      ensures Cover(slices, q) <= 1
    {
      NoSlices(q);
      CoverNext([], slice, q);
    }
    assert !InBox(slice.start, slice.end, p);
    assert Volume([0, 0, 0], layer) == 0x4000_0000_0000_0000;
    assert Volume([0, 0, 0], grid) == 0x1_4000_0000_0000_0000;
    assert Accepts(grid, 1, slices) && InBox([0, 0, 0], grid, p);
  }

  ghost predicate NoOverlap(slices: seq<Slice>) {
    forall p: Dims :: Cover(slices, p) <= 1
  }

  /** For slices that do not overlap the check is exact: accepted if and only if every block is covered. */
  lemma AcceptedIffCovered(grid: Dims, totalPartitions: uint32, slices: seq<Slice>)
    requires NoOverlap(slices) && InBounds(slices, grid)
    requires 0 < Volume([0, 0, 0], grid) < TWO_64 && totalPartitions != 0
    ensures Accepts(grid, totalPartitions, slices) <==>
      forall p: Dims | InBox([0, 0, 0], grid, p) :: Cover(slices, p) == 1
  {
    var zero: Dims := [0, 0, 0];
    var all, covered := BoxSet(zero, grid), CoveredSet(slices);
    BoxSetSize(zero, grid);
    CoveredSetSize(slices, grid);
    CoveredInside(slices, grid);
    SubsetSize(covered, all);
    DivModUnique(Volume(zero, grid), TWO_64, 0, Volume(zero, grid));
    DivModUnique(TotalVolume(slices), TWO_64, 0, TotalVolume(slices));
    if covered == all {
      forall p: Dims | InBox(zero, grid, p)
        ensures Cover(slices, p) == 1
      {
        BoxSetMember(zero, grid, p);
        CoveredMember(slices, p);
      }
    } else {
      var q :| q in all && q !in covered;
      var p: Dims := [q.0, q.1, q.2];
      BoxSetMember(zero, grid, p);
      CoveredMember(slices, p);
    }
  }

  /** What an accepted plan keeps of the promise: it covers every block exactly once if and only if nothing overlaps. */
  lemma PromiseIffNoOverlap(grid: Dims, totalPartitions: uint32, slices: seq<Slice>)
    requires Accepts(grid, totalPartitions, slices) && Volume([0, 0, 0], grid) < TWO_64
    ensures (forall p: Dims | InBox([0, 0, 0], grid, p) :: Cover(slices, p) == 1) <==> NoOverlap(slices)
  {
    hide Cover, TotalVolume, Volume;
    if NoOverlap(slices) {
      VolumeNotNegative(grid);
      AcceptedIffCovered(grid, totalPartitions, slices);
    }
    forall p: Dims | !InBox([0, 0, 0], grid, p)
      ensures Cover(slices, p) == 0
    {
      OutsideGrid(slices, grid, p);
    }
  }

  lemma VolumeNotNegative(grid: Dims)
    ensures Volume([0, 0, 0], grid) >= 0
  {
    MulMono(0, grid[0], grid[1]);
    MulMono(0, grid[0] as int * grid[1] as int, grid[2]);
  }

  lemma {:induction false} OutsideGrid(slices: seq<Slice>, grid: Dims, p: Dims)
    requires InBounds(slices, grid) && !InBox([0, 0, 0], grid, p)
    ensures Cover(slices, p) == 0
  {
    if slices != [] {
      var n := |slices| - 1;
      assert slices[n] in slices && forall s :: s in slices[..n] ==> s in slices;
      OutsideGrid(slices[..n], grid, p);
    }
  }

  type Point = (uint32, uint32, uint32)

  function BoxSet(start: Dims, end: Dims): set<Point> {
    set x: uint32, y: uint32, z: uint32 |
      start[0] <= x < end[0] && start[1] <= y < end[1] && start[2] <= z < end[2] :: (x, y, z)
  }

  lemma BoxSetMember(start: Dims, end: Dims, p: Dims)
    ensures ((p[0], p[1], p[2]) in BoxSet(start, end)) == InBox(start, end, p)
  {
  }

  function CoveredSet(slices: seq<Slice>): set<Point> {
    if slices == [] then {}
    else CoveredSet(slices[..|slices| - 1]) + BoxSet(slices[|slices| - 1].start, slices[|slices| - 1].end)
  }

  lemma {:induction false} CoveredMember(slices: seq<Slice>, p: Dims)
    ensures ((p[0], p[1], p[2]) in CoveredSet(slices)) == (Cover(slices, p) > 0)
  {
    if slices != [] {
      CoveredMember(slices[..|slices| - 1], p);
      BoxSetMember(slices[|slices| - 1].start, slices[|slices| - 1].end, p);
    }
  }

  lemma {:induction false} CoveredInside(slices: seq<Slice>, grid: Dims)
    requires InBounds(slices, grid)
    ensures CoveredSet(slices) <= BoxSet([0, 0, 0], grid)
  {
    if slices != [] {
      var n := |slices| - 1;
      assert slices[n] in slices && forall s :: s in slices[..n] ==> s in slices;
      CoveredInside(slices[..n], grid);
    }
  }

  /** Without overlap, volumes add up to the number of covered blocks. */
  lemma {:induction false} CoveredSetSize(slices: seq<Slice>, grid: Dims)
    requires NoOverlap(slices) && InBounds(slices, grid)
    ensures |CoveredSet(slices)| == TotalVolume(slices)
  {
    if slices != [] {
      var n := |slices| - 1;
      var front, s := slices[..n], slices[n];
      assert s in slices && forall t :: t in front ==> t in slices;
      forall p: Dims
        ensures Cover(front, p) <= 1
      {
        assert Cover(slices, p) <= 1;
      }
      CoveredSetSize(front, grid);
      BoxSetSize(s.start, s.end);
      forall q | q in CoveredSet(front)
        ensures q !in BoxSet(s.start, s.end)
      {
        var p: Dims := [q.0, q.1, q.2];
        CoveredMember(front, p);
        BoxSetMember(s.start, s.end, p);
        assert Cover(slices, p) <= 1;
      }
      assert CoveredSet(front) !! BoxSet(s.start, s.end);
    }
  }

  lemma SubsetSize<T>(a: set<T>, b: set<T>)
    requires a <= b
    ensures |a| <= |b| && (|a| == |b| ==> a == b)
  {
    assert b == a + (b - a);
    assert |b| == |a| + |b - a|;
  }

  function Line(x: uint32, y: uint32, z0: uint32, z1: uint32): set<Point> {
    set z: uint32 | z0 <= z < z1 :: (x, y, z)
  }

  function Plane(x: uint32, y0: uint32, y1: uint32, z0: uint32, z1: uint32): set<Point> {
    set y: uint32, z: uint32 | y0 <= y < y1 && z0 <= z < z1 :: (x, y, z)
  }

  lemma {:induction false} LineSize(x: uint32, y: uint32, z0: uint32, z1: uint32)
    requires z0 <= z1
    ensures |Line(x, y, z0, z1)| == z1 as int - z0
    decreases z1
  {
    if z0 < z1 {
      LineSize(x, y, z0, z1 - 1);
      assert Line(x, y, z0, z1) == Line(x, y, z0, z1 - 1) + {(x, y, z1 - 1)};
    } else {
      assert Line(x, y, z0, z1) == {};
    }
  }

  lemma {:induction false} PlaneSize(x: uint32, y0: uint32, y1: uint32, z0: uint32, z1: uint32)
    requires y0 <= y1 && z0 <= z1
    ensures |Plane(x, y0, y1, z0, z1)| == (y1 as int - y0) * (z1 as int - z0)
    decreases y1
  {
    if y0 < y1 {
      PlaneSize(x, y0, y1 - 1, z0, z1);
      LineSize(x, y1 - 1, z0, z1);
      var front, last := Plane(x, y0, y1 - 1, z0, z1), Line(x, y1 - 1, z0, z1);
      assert Plane(x, y0, y1, z0, z1) == front + last;
      assert front !! last;
      MulDistrib(y1 as int - 1 - y0, 1, z1 as int - z0);
    } else {
      assert Plane(x, y0, y1, z0, z1) == {};
    }
  }

  /** A box has as many blocks as its volume: one plane after another. */
  lemma {:induction false} BoxSetSize(start: Dims, end: Dims)
    requires Ordered(start, end)
    ensures |BoxSet(start, end)| == Volume(start, end)
    decreases end[0]
  {
    if start[0] < end[0] {
      var x := end[0] - 1;
      var shorter := end[0 := x];
      BoxSetSize(start, shorter);
      PlaneSize(x, start[1], end[1], start[2], end[2]);
      var front, last := BoxSet(start, shorter), Plane(x, start[1], end[1], start[2], end[2]);
      assert BoxSet(start, end) == front + last;
      assert front !! last;
      var area := Extent(start, end, 1) * Extent(start, end, 2);
      MulDistrib(Extent(start, shorter, 0), 1, area);
      MulAssoc(Extent(start, end, 0), Extent(start, end, 1), Extent(start, end, 2));
      MulAssoc(Extent(start, shorter, 0), Extent(start, end, 1), Extent(start, end, 2));
    } else {
      assert BoxSet(start, end) == {};
      assert Extent(start, end, 0) == 0;
    }
  }
}
