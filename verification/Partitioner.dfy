/** Recursive bisection of a 3D grid over weighted nodes: src/advanced/workload_partitioner.cpp, lines 13-118,
    with `double` read as `real`. */
module Partitioner {
  import opened Machine
  import opened Bisection
  import Sorting

  datatype Node = Node(address: string, workerIdx: int, cpuCores: int, gflops: real, latencyMs: real,
                       bandwidthGbps: real, accuracy: real)

  datatype Slice = Slice(address: string, workerIdx: int, cpuCores: int, capacity: real, id: nat,
                         start: Dims, end: Dims, dim: Dims)

  // ------------------------------------------------------------ capacity

  function NodeCap(n: Node): real {
    n.cpuCores as real * n.gflops / MaxReal(n.latencyMs, 0.001) * MinReal(1.0, n.bandwidthGbps / 10.0)
  }

  /** A node with cores and measured speed has a capacity of the sign of its bandwidth. */
  lemma CapacitySign(n: Node)
    requires n.cpuCores > 0 && n.gflops > 0.0
    ensures NodeCap(n) > 0.0 <==> n.bandwidthGbps > 0.0
    ensures NodeCap(n) == 0.0 <==> n.bandwidthGbps == 0.0
  {
    var work := n.cpuCores as real * n.gflops;
    StrictProduct(n.cpuCores as real, n.gflops);
    var perMs := work / MaxReal(n.latencyMs, 0.001);
    assert perMs > 0.0;
    var share := MinReal(1.0, n.bandwidthGbps / 10.0);
    if share > 0.0 {
      StrictProduct(perMs, share);
    } else if share < 0.0 {
      StrictProduct(perMs, -share);
    }
  }

  function CapsOf(nodes: seq<Node>): (caps: seq<real>)
    ensures |caps| == |nodes| && forall i :: 0 <= i < |nodes| ==> caps[i] == NodeCap(nodes[i])
  {
    seq(|nodes|, i requires 0 <= i < |nodes| => NodeCap(nodes[i]))
  }

  /** The capacities in falling order. */
  function SortedCaps(nodes: seq<Node>): (caps: seq<real>)
    ensures |caps| == |nodes|
  {
    Sorting.Sort(CapsOf(nodes), AtLeast)
  }

  // ------------------------------------------------------------ what a set of slices covers

  predicate InBox(start: Dims, end: Dims, p: Dims) {
    forall i :: 0 <= i < 3 ==> start[i] <= p[i] < end[i]
  }

  /** How many slices contain block p. */
  function Cover(slices: seq<Slice>, p: Dims): nat {
    if slices == [] then 0
    else Cover(slices[..|slices| - 1], p)
         + if InBox(slices[|slices| - 1].start, slices[|slices| - 1].end, p) then 1 else 0
  }

  lemma {:induction false} CoverConcat(a: seq<Slice>, b: seq<Slice>, p: Dims)
    ensures Cover(a + b, p) == Cover(a, p) + Cover(b, p)
  {
    if b == [] {
      assert a + b == a;
    } else {
      CoverConcat(a, b[..|b| - 1], p);
      assert (a + b)[..|a + b| - 1] == a + b[..|b| - 1];
    }
  }

  function Volume(start: Dims, end: Dims): int {
    Extent(start, end, 0) * Extent(start, end, 1) * Extent(start, end, 2)
  }

  function TotalVolume(slices: seq<Slice>): int {
    if slices == [] then 0
    else TotalVolume(slices[..|slices| - 1]) + Volume(slices[|slices| - 1].start, slices[|slices| - 1].end)
  }

  lemma {:induction false} TotalVolumeConcat(a: seq<Slice>, b: seq<Slice>)
    ensures TotalVolume(a + b) == TotalVolume(a) + TotalVolume(b)
  {
    if b == [] {
      assert a + b == a;
    } else {
      TotalVolumeConcat(a, b[..|b| - 1]);
      assert (a + b)[..|a + b| - 1] == a + b[..|b| - 1];
    }
  }

  predicate NonEmpty(start: Dims, end: Dims) { forall i :: 0 <= i < 3 ==> start[i] < end[i] }

  predicate Inside(s: Slice, start: Dims, end: Dims) {
    && Ordered(start, s.start) && Ordered(s.start, s.end) && Ordered(s.end, end)
    && forall i :: 0 <= i < 3 ==> s.dim[i] == Extent(s.start, s.end, i)
  }

  /** Who gets a slice. */
  datatype Owner = Owner(address: string, workerIdx: int, cpuCores: int)

  function NodeOwner(n: Node): Owner { Owner(n.address, n.workerIdx, n.cpuCores) }
  function SliceOwner(s: Slice): Owner { Owner(s.address, s.workerIdx, s.cpuCores) }

  function OwnersOfNodes(nodes: seq<Node>): (o: seq<Owner>)
    ensures |o| == |nodes|
  {
    seq(|nodes|, i requires 0 <= i < |nodes| => NodeOwner(nodes[i]))
  }

  function OwnersOfSlices(slices: seq<Slice>): (o: seq<Owner>)
    ensures |o| == |slices|
  {
    seq(|slices|, i requires 0 <= i < |slices| => SliceOwner(slices[i]))
  }

  /** No owner gets more slices than it has nodes. */
  ghost predicate OwnedBy(slices: seq<Slice>, nodes: seq<Node>) {
    multiset(OwnersOfSlices(slices)) <= multiset(OwnersOfNodes(nodes))
  }

  lemma OwnedByJoin(a: seq<Slice>, b: seq<Slice>, nodesA: seq<Node>, nodesB: seq<Node>)
    requires OwnedBy(a, nodesA) && OwnedBy(b, nodesB)
    ensures OwnedBy(a + b, nodesA + nodesB)
  {
    assert OwnersOfSlices(a + b) == OwnersOfSlices(a) + OwnersOfSlices(b);
    assert OwnersOfNodes(nodesA + nodesB) == OwnersOfNodes(nodesA) + OwnersOfNodes(nodesB);
  }

  /** A permutation of the nodes has the same owners. */
  lemma {:induction false} OwnersPermute(a: seq<Node>, b: seq<Node>)
    requires multiset(a) == multiset(b)
    ensures multiset(OwnersOfNodes(a)) == multiset(OwnersOfNodes(b))
    decreases |a|
  {
    if a == [] {
      assert |multiset(b)| == 0;
    } else {
      var x, rest := a[0], a[1..];
      assert a == [x] + rest;
      assert x in multiset(b);
      var k :| 0 <= k < |b| && b[k] == x;
      var front, back := b[..k], b[k + 1..];
      assert b == front + ([x] + back);
      WithoutOne(rest, front, back, x);
      OwnersPermute(rest, front + back);
      OwnersAround(a, rest, b, front, back, x);
      AddOne(OwnersOfNodes(rest), OwnersOfNodes(front), OwnersOfNodes(back), NodeOwner(x));
    }
  }

  lemma OwnersAround(a: seq<Node>, rest: seq<Node>, b: seq<Node>, front: seq<Node>, back: seq<Node>, x: Node)
    requires a == [x] + rest && b == front + ([x] + back)
    ensures OwnersOfNodes(a) == [NodeOwner(x)] + OwnersOfNodes(rest)
    ensures OwnersOfNodes(b) == OwnersOfNodes(front) + ([NodeOwner(x)] + OwnersOfNodes(back))
    ensures OwnersOfNodes(front + back) == OwnersOfNodes(front) + OwnersOfNodes(back)
  {
  }

  lemma WithoutOne<T>(rest: seq<T>, front: seq<T>, back: seq<T>, x: T)
    requires multiset([x] + rest) == multiset(front + ([x] + back))
    ensures multiset(rest) == multiset(front + back)
  {
    assert multiset([x] + rest) == multiset{x} + multiset(rest);
    assert multiset(front + ([x] + back)) == multiset{x} + multiset(front + back);
    assert multiset(rest) == (multiset{x} + multiset(rest)) - multiset{x};
  }

  lemma AddOne<T>(rest: seq<T>, front: seq<T>, back: seq<T>, x: T)
    requires multiset(rest) == multiset(front + back)
    ensures multiset([x] + rest) == multiset(front + ([x] + back))
  {
    assert multiset([x] + rest) == multiset{x} + multiset(rest);
    assert multiset(front + ([x] + back)) == multiset{x} + multiset(front + back);
  }

  /** The slices tile the box: every block of it exactly once, nothing outside, owners among the nodes. */
  ghost predicate Tiles(slices: seq<Slice>, start: Dims, end: Dims, nodes: seq<Node>) {
    && (forall p: Dims :: Cover(slices, p) == if InBox(start, end, p) then 1 else 0)
    && (forall s :: s in slices ==> Inside(s, start, end))
    && (NonEmpty(start, end) ==> forall s :: s in slices ==> NonEmpty(s.start, s.end))
    && TotalVolume(slices) == Volume(start, end)
    && OwnedBy(slices, nodes)
    && 1 <= |slices| <= |nodes|
  }

  /** Two tilings of the halves of a box make a tiling of the box. */
  lemma TilesJoin(a: seq<Slice>, b: seq<Slice>, start: Dims, end: Dims, d: nat, at: uint32,
                  groupA: seq<Node>, groupB: seq<Node>, nodes: seq<Node>)
    requires d < 3 && Ordered(start, end) && start[d] < at < end[d]
    requires Tiles(a, start, end[d := at], groupA) && Tiles(b, start[d := at], end, groupB)
    requires groupA + groupB == nodes
    ensures Tiles(a + b, start, end, nodes)
  {
    var endA, startB := end[d := at], start[d := at];
    forall p: Dims
      ensures Cover(a + b, p) == if InBox(start, end, p) then 1 else 0
    {
      CoverConcat(a, b, p);
      SplitBox(start, end, d, at, p);
    }
    forall s | s in a + b
      ensures Inside(s, start, end)
      ensures NonEmpty(start, end) ==> NonEmpty(s.start, s.end)
    {
      if s in a {
        assert Inside(s, start, endA);
      } else {
        assert Inside(s, startB, end);
      }
    }
    TotalVolumeConcat(a, b);
    SplitVolume(start, end, d, at);
    OwnedByJoin(a, b, groupA, groupB);
  }

  lemma SplitBox(start: Dims, end: Dims, d: nat, at: uint32, p: Dims)
    requires d < 3 && start[d] < at < end[d]
    ensures InBox(start, end, p) == (InBox(start, end[d := at], p) || InBox(start[d := at], end, p))
    ensures !(InBox(start, end[d := at], p) && InBox(start[d := at], end, p))
  {
    if InBox(start, end, p) {
      assert start[d] <= p[d] < end[d];
    }
    if InBox(start, end[d := at], p) {
      assert p[d] < at;
    }
    if InBox(start[d := at], end, p) {
      assert at <= p[d];
    }
  }

  lemma SplitVolume(start: Dims, end: Dims, d: nat, at: uint32)
    requires d < 3
    ensures Volume(start, end) == Volume(start, end[d := at]) + Volume(start[d := at], end)
  {
    var x, y, z := Extent(start, end, 0), Extent(start, end, 1), Extent(start, end, 2);
    var u, v: int := at as int - start[d], end[d] as int - at;
    if d == 0 {
      MulDistrib(u, v, y);
      MulDistrib(u * y, v * y, z);
    } else if d == 1 {
      MulDistrib(u, v, x);
      MulDistrib(x * u, x * v, z);
    } else {
      MulDistrib(u, v, x * y);
    }
  }

  // ------------------------------------------------------------ the recursion

  class PartitionPlan {
    var originalGrid: Dims
    var blockDim: Dims
    var totalPartitions: uint32
    var slices: seq<Slice>

    constructor ()
      ensures slices == []
    {
      originalGrid, blockDim, totalPartitions, slices := [0, 0, 0], [0, 0, 0], 0, [];
    }
  }

  /** Some order of the nodes by falling capacity; ties may come out in any order. */
  method SortByCapacity(nodes: seq<Node>) returns (sorted: seq<Node>)
    ensures multiset(sorted) == multiset(nodes) && |sorted| == |nodes|
    ensures CapsOf(sorted) == SortedCaps(nodes) && Descending(CapsOf(sorted))
  {
    sorted := Sorting.Sort(nodes, MoreCapable);
    Sorting.SortPermutes(nodes, MoreCapable);
    SortedOrder(nodes);
    AtLeastOrder();
    Sorting.SortSorted(CapsOf(nodes), AtLeast);
  }

  predicate MoreCapable(x: Node, y: Node) { AtLeast(NodeCap(x), NodeCap(y)) }

  lemma {:induction false} SortedOrder(nodes: seq<Node>)
    ensures CapsOf(Sorting.Sort(nodes, MoreCapable)) == SortedCaps(nodes)
  {
    hide NodeCap;
    if nodes != [] {
      SortedOrder(nodes[1..]);
      InsertedOrder(nodes[0], Sorting.Sort(nodes[1..], MoreCapable));
      assert CapsOf(nodes)[1..] == CapsOf(nodes[1..]);
    }
  }

  lemma {:induction false} InsertedOrder(n: Node, nodes: seq<Node>)
    ensures CapsOf(Sorting.Insert(n, nodes, MoreCapable)) == Sorting.Insert(NodeCap(n), CapsOf(nodes), AtLeast)
  {
    hide NodeCap;
    if nodes != [] && !MoreCapable(n, nodes[0]) {
      InsertedOrder(n, nodes[1..]);
      assert CapsOf(nodes)[1..] == CapsOf(nodes[1..]);
    }
  }

  /** The first group takes nodes until it holds half the capacity. */
  method SplitNodes(nodes: seq<Node>) returns (groupA: seq<Node>, groupB: seq<Node>, currentCap: real, totalCap: real)
    requires |nodes| >= 2 && Descending(CapsOf(nodes))
    ensures var caps := CapsOf(nodes);
      var k := FirstGroup(caps, 1);
      && groupA == nodes[..k] && groupB == nodes[k..] && groupA != [] && groupB != []
      && currentCap == Sum(caps[..k]) && totalCap == Sum(caps)
  {
    hide Sum, NodeCap, Descending, FirstGroup, CapsOf;
    ghost var caps := CapsOf(nodes);
    SumEnds(caps);
    totalCap := 0.0;
    for i := 0 to |nodes|
      invariant totalCap == Sum(caps[..i])
    {
      SumNext(caps, i);
      totalCap := totalCap + NodeCap(nodes[i]);
    }
    groupA, currentCap := [], 0.0;
    var splitIdx := 0;
    var i := 0;
    while i < |nodes| - 1
      invariant 0 <= i <= |nodes| - 1
      invariant groupA == nodes[..i] && currentCap == Sum(caps[..i])
      invariant forall j :: 1 <= j <= i ==> Sum(caps[..j]) < totalCap / 2.0
      invariant splitIdx == 0
    {
      SumNext(caps, i);
      currentCap := currentCap + NodeCap(nodes[i]);
      groupA := groupA + [nodes[i]];
      if currentCap >= totalCap / 2.0 {
        splitIdx := i + 1;
        break;
      }
      i := i + 1;
    }
    HalfIsReached(caps);
    assert splitIdx > 0;
    groupB := nodes[splitIdx..];
  }

  /** start + round(share * extent), pushed strictly inside the extent, if the share has a value that fits. */
  method SplitPoint(start: uint32, end: uint32, currentCap: real, totalCap: real) returns (ok: bool, at: uint32)
    requires start + 1 < end
    ensures ok == Castable(currentCap, totalCap, end as int - start)
    ensures ok ==> start < at < end && at == CutAt(start, end, currentCap, totalCap)
    ensures ok && 0.0 <= currentCap <= totalCap ==>
      var share := Share(currentCap, totalCap, end as int - start);
      share - 1.0 <= (at - start) as real <= share + 1.0
  {
    var extent := end as int - start;
    if totalCap == 0.0 {
      return false, 0;
    }
    var rounded := Round(Share(currentCap, totalCap, extent));
    if !(0 <= rounded < TWO_32) {
      return false, 0;
    }
    ok, at := true, (start as int + rounded) % TWO_32;
    if at <= start {
      at := start + 1;
    }
    if at >= end {
      at := end - 1;
    }
    if 0.0 <= currentCap <= totalCap {
      CutIsProportional(start, end, currentCap, totalCap);
    }
  }

  method LargestDimension(start: Dims, end: Dims) returns (d: nat)
    requires Ordered(start, end)
    ensures d == Widest(start, end)
  {
    d := 0;
    for i := 1 to 3
      invariant i == 1 ==> d == 0
      invariant i == 2 ==> d == if Extent(start, end, 1) > Extent(start, end, 0) then 1 else 0
      invariant i == 3 ==> d == Widest(start, end)
    {
      if end[i] as int - start[i] > end[d] as int - start[d] {
        d := i;
      }
    }
  }

  /**
   * The recursion, for any capacities.  It stops with `false` where the source divides by zero or converts
   * a number that no uint32 holds, which has no defined result.
   */
  method PartitionRecursive(start: Dims, end: Dims, nodes: seq<Node>, plan: PartitionPlan) returns (ok: bool)
    requires Ordered(start, end)
    modifies plan`slices
    ensures ok == Defined(start, end, SortedCaps(nodes))
    ensures nodes == [] ==> plan.slices == old(plan.slices)
    ensures old(plan.slices) <= plan.slices
    ensures ok && nodes != [] ==> Tiles(plan.slices[|old(plan.slices)|..], start, end, nodes)
    ensures forall k :: |old(plan.slices)| <= k < |plan.slices| ==> plan.slices[k].id == k % TWO_32
    decreases |nodes|
  {
    hide Tiles, NodeCap, CapsOf, SortedCaps, Sum, Descending, FirstGroup, Widest, CutAt, Castable;
    ghost var before := plan.slices;
    if nodes == [] {
      return true;
    }
    if |nodes| == 1 {
      var n := nodes[0];
      var slice := Slice(n.address, n.workerIdx, n.cpuCores, NodeCap(n), |plan.slices| % TWO_32, start, end,
                         [end[0] - start[0], end[1] - start[1], end[2] - start[2]]);
      plan.slices := plan.slices + [slice];
      OneSlice(slice, start, end, n, nodes);
      assert plan.slices[|before|..] == [slice];
      return true;
    }
    var splitDim := LargestDimension(start, end);
    var maxExtent := end[splitDim] - start[splitDim];
    if maxExtent <= 1 {
      ok := PartitionRecursive(start, end, [nodes[0]], plan);
      FewerNodes(plan.slices[|before|..], start, end, nodes);
      return true;
    }
    var sorted := SortByCapacity(nodes);
    var groupA, groupB, currentCap, totalCap := SplitNodes(sorted);
    GroupCaps(sorted, |groupA|);
    var at: uint32;
    ok, at := SplitPoint(start[splitDim], end[splitDim], currentCap, totalCap);
    if !ok {
      return;
    }
    ok := PartitionRecursive(start, end[splitDim := at], groupA, plan);
    if !ok {
      return;
    }
    ghost var middle := plan.slices;
    ok := PartitionRecursive(start[splitDim := at], end, groupB, plan);
    if !ok {
      return;
    }
    ghost var a, b := middle[|before|..], plan.slices[|middle|..];
    assert plan.slices[|before|..] == a + b;
    TilesJoin(a, b, start, end, splitDim, at, groupA, groupB, sorted);
    SameOwners(a + b, start, end, sorted, nodes);
  }

  /** The groups of sorted nodes are sorted. */
  lemma GroupCaps(sorted: seq<Node>, k: nat)
    requires k <= |sorted| && Descending(CapsOf(sorted))
    ensures SortedCaps(sorted[..k]) == CapsOf(sorted)[..k] && SortedCaps(sorted[k..]) == CapsOf(sorted)[k..]
  {
    hide NodeCap;
    assert CapsOf(sorted[..k]) == CapsOf(sorted)[..k] && CapsOf(sorted[k..]) == CapsOf(sorted)[k..];
    Parts(CapsOf(sorted), k);
    SortOfSorted(CapsOf(sorted)[..k]);
    SortOfSorted(CapsOf(sorted)[k..]);
  }

  lemma OneSlice(s: Slice, start: Dims, end: Dims, n: Node, nodes: seq<Node>)
    requires nodes == [n] && s.start == start && s.end == end && SliceOwner(s) == NodeOwner(n) && Ordered(start, end)
    requires forall i :: 0 <= i < 3 ==> s.dim[i] == Extent(start, end, i)
    ensures Tiles([s], start, end, nodes)
  {
    assert [s][..0] == [];
    assert OwnersOfSlices([s]) == OwnersOfNodes(nodes);
    forall p: Dims
      ensures Cover([s], p) == if InBox(start, end, p) then 1 else 0
    {
      assert Cover([s], p) == Cover([s][..0], p) + if InBox(s.start, s.end, p) then 1 else 0;
    }
  }

  lemma FewerNodes(slices: seq<Slice>, start: Dims, end: Dims, nodes: seq<Node>)
    requires nodes != [] && Tiles(slices, start, end, [nodes[0]])
    ensures Tiles(slices, start, end, nodes)
  {
    assert nodes == [nodes[0]] + nodes[1..];
    assert OwnersOfNodes(nodes) == OwnersOfNodes([nodes[0]]) + OwnersOfNodes(nodes[1..]);
  }

  lemma SameOwners(slices: seq<Slice>, start: Dims, end: Dims, sorted: seq<Node>, nodes: seq<Node>)
    requires multiset(sorted) == multiset(nodes) && |sorted| == |nodes| && Tiles(slices, start, end, sorted)
    ensures Tiles(slices, start, end, nodes)
  {
    OwnersPermute(sorted, nodes);
  }
}
