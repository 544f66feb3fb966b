/** Byzantine-robust gradient aggregation: src/advanced/fault_tolerance.cpp, lines 19-130, with `double`
    read as `real`. */
module RobustAggregation {
  import opened Machine
  import opened Sorting

  type Vector = seq<real>

  function Max(a: int, b: int): int { if a >= b then a else b }

  // ------------------------------------------------------------ definitions

  predicate RealLeq(x: real, y: real) { x <= y }

  lemma RealOrder()
    ensures TotalOrder(RealLeq)
  {
  }

  function Sum(s: seq<real>): real {
    if s == [] then 0.0 else Sum(s[..|s| - 1]) + s[|s| - 1]
  }

  /** Squared distance over the first n coordinates. */
  function SqDistTo(a: Vector, b: Vector, n: nat): real
    requires n <= |a| && n <= |b|
  {
    if n == 0 then 0.0 else SqDistTo(a, b, n - 1) + (a[n - 1] - b[n - 1]) * (a[n - 1] - b[n - 1])
  }

  function SqDist(a: Vector, b: Vector): real { SqDistTo(a, b, Min(|a|, |b|)) }

  lemma {:induction false} SqDistFacts(a: Vector, b: Vector, n: nat)
    requires n <= |a| && n <= |b|
    ensures 0.0 <= SqDistTo(a, b, n) == SqDistTo(b, a, n)
    ensures a == b ==> SqDistTo(a, b, n) == 0.0
  {
    if n > 0 {
      SqDistFacts(a, b, n - 1);
      var d := a[n - 1] - b[n - 1];
      assert d * d >= 0.0;
      assert (-d) * (-d) == d * d;
    }
  }

  /** Coordinate d of every vector that has one. */
  function Column(grads: seq<Vector>, d: nat): seq<real> {
    if grads == [] then []
    else
      var last := grads[|grads| - 1];
      Column(grads[..|grads| - 1], d) + if d < |last| then [last[d]] else []
  }

  /** Distances from vector i to the vectors before m, itself left out. */
  function Row(grads: seq<Vector>, i: nat, m: nat): seq<real>
    requires i < |grads| && m <= |grads|
  {
    if m == 0 then [] else Row(grads, i, m - 1) + if m - 1 != i then [SqDist(grads[i], grads[m - 1])] else []
  }

  lemma {:induction false} RowLength(grads: seq<Vector>, i: nat, m: nat)
    requires i < |grads| && m <= |grads|
    ensures |Row(grads, i, m)| == if i < m then m - 1 else m
  {
    if m > 0 {
      RowLength(grads, i, m - 1);
    }
  }

  /** How many neighbours count towards a score. */
  function Neighbours(n: int, f: int): int {
    Min(Max(n - f - 2, 1), n - 1)
  }

  /** The sum of the squared distances to the closest neighbours. */
  function Score(grads: seq<Vector>, f: int, i: nat): real
    requires i < |grads|
  {
    RowLength(grads, i, |grads|);
    Sum(Sort(Row(grads, i, |grads|), RealLeq)[..Neighbours(|grads|, f)])
  }

  // ------------------------------------------------------------ honest majorities

  predicate No(b: bool) { !b }

  function Dishonest(honest: seq<bool>): nat { Count(honest, No) }

  function Below(x: real): real -> bool { (v: real) => v < x }
  function Above(x: real): real -> bool { (v: real) => v > x }
  function AtMost(x: real): real -> bool { (v: real) => v <= x }

  predicate SameDimension(grads: seq<Vector>, dim: nat) { forall i :: 0 <= i < |grads| ==> |grads[i]| == dim }

  /** Every honest value of coordinate d lies in [lo, hi]. */
  predicate HonestWithin(grads: seq<Vector>, honest: seq<bool>, d: nat, lo: real, hi: real)
    requires |honest| == |grads|
  {
    forall i :: 0 <= i < |grads| && honest[i] && d < |grads[i]| ==> lo <= grads[i][d] <= hi
  }

  /** Only dishonest vectors can put a value outside the honest range. */
  lemma {:induction false} OutsidersAreDishonest(grads: seq<Vector>, honest: seq<bool>, d: nat, lo: real, hi: real)
    requires |honest| == |grads| && HonestWithin(grads, honest, d, lo, hi)
    ensures Count(Column(grads, d), Below(lo)) <= Dishonest(honest)
    ensures Count(Column(grads, d), Above(hi)) <= Dishonest(honest)
  {
    if grads != [] {
      var n := |grads| - 1;
      var g, h := grads[..n], honest[..n];
      OutsidersAreDishonest(g, h, d, lo, hi);
      assert honest == h + [honest[n]];
      CountConcat(h, [honest[n]], No);
      var tail := if d < |grads[n]| then [grads[n][d]] else [];
      CountConcat(Column(g, d), tail, Below(lo));
      CountConcat(Column(g, d), tail, Above(hi));
      assert Count(tail, Below(lo)) <= Count([honest[n]], No);
      assert Count(tail, Above(hi)) <= Count([honest[n]], No);
    }
  }

  lemma {:induction false} ColumnLength(grads: seq<Vector>, d: nat, dim: nat)
    requires SameDimension(grads, dim) && d < dim
    ensures |Column(grads, d)| == |grads|
  {
    if grads != [] {
      ColumnLength(grads[..|grads| - 1], d, dim);
    }
  }

  /** With t outliers on either side, what is left after dropping t at both ends is in range. */
  lemma MiddleInRange(col: seq<real>, t: nat, lo: real, hi: real, i: nat)
    requires Count(col, Below(lo)) <= t && Count(col, Above(hi)) <= t && t <= i < |col| - t
    ensures lo <= Sort(col, RealLeq)[i] <= hi
  {
    var s := Sort(col, RealLeq);
    RealOrder();
    SortSorted(col, RealLeq);
    CountSort(col, RealLeq, Below(lo));
    CountSort(col, RealLeq, Above(hi));
    hide Sort, Count;
    if s[i] < lo {
      ManyBelow(s, lo, i);
    } else if s[i] > hi {
      ManyAbove(s, hi, i);
    }
  }

  lemma ManyBelow(s: seq<real>, lo: real, i: nat)
    requires Sorted(s, RealLeq) && i < |s| && s[i] < lo
    ensures i + 1 <= Count(s, Below(lo))
  {
    forall j | 0 <= j < i + 1
      ensures Below(lo)(s[j])
    {
      assert j < i ==> RealLeq(s[j], s[i]);
    }
    CountAtLeast(s, i + 1, Below(lo));
  }

  lemma ManyAbove(s: seq<real>, hi: real, i: nat)
    requires Sorted(s, RealLeq) && i < |s| && s[i] > hi
    ensures |s| - i <= Count(s, Above(hi))
  {
    var rest := s[i..];
    forall j | 0 <= j < |rest|
      ensures Above(hi)(rest[j])
    {
      assert j > 0 ==> RealLeq(s[i], s[i + j]);
    }
    CountAll(rest, Above(hi));
    assert s == s[..i] + rest;
    CountConcat(s[..i], rest, Above(hi));
  }

  lemma {:induction false} SumInRange(s: seq<real>, lo: real, hi: real)
    requires forall i :: 0 <= i < |s| ==> lo <= s[i] <= hi
    ensures |s| as real * lo <= Sum(s) <= |s| as real * hi
  {
    if s != [] {
      SumInRange(s[..|s| - 1], lo, hi);
      assert |s| as real * lo == (|s| - 1) as real * lo + lo;
      assert |s| as real * hi == (|s| - 1) as real * hi + hi;
    }
  }

  lemma MeanInRange(s: seq<real>, lo: real, hi: real)
    requires s != [] && forall i :: 0 <= i < |s| ==> lo <= s[i] <= hi
    ensures lo <= Sum(s) / |s| as real <= hi
  {
    SumInRange(s, lo, hi);
    QuotientBounds(Sum(s), |s| as real, lo, hi);
  }

  lemma QuotientBounds(sum: real, n: real, lo: real, hi: real)
    requires n > 0.0 && n * lo <= sum <= n * hi
    ensures lo <= sum / n <= hi
  {
    var m := sum / n;
    assert m * n == sum;
    if m < lo {
      RealMulStrict(m, lo, n);
    } else if m > hi {
      RealMulStrict(hi, m, n);
    }
  }

  lemma RealMulStrict(a: real, b: real, c: real)
    requires a < b && 0.0 < c
    ensures a * c < b * c
  {
  }

  // ------------------------------------------------------------ median and trimmed mean

  function MedianOf(col: seq<real>): real {
    var s, m := Sort(col, RealLeq), |col|;
    if m == 0 then 0.0 else if m % 2 == 1 then s[m / 2] else 0.5 * (s[m / 2 - 1] + s[m / 2])
  }

  function TrimmedMeanOf(col: seq<real>, trim: nat): real {
    var s, n := Sort(col, RealLeq), |col|;
    if n - trim <= trim then Sum(s) / Max(1, n) as real
    else Sum(s[trim..n - trim]) / (n - 2 * trim) as real
  }

  /** The median resists any minority of arbitrary vectors. */
  lemma MedianTolerance(grads: seq<Vector>, honest: seq<bool>, dim: nat, d: nat, lo: real, hi: real)
    requires |honest| == |grads| && SameDimension(grads, dim) && d < dim
    requires |grads| > 2 * Dishonest(honest)
    requires HonestWithin(grads, honest, d, lo, hi)
    ensures lo <= MedianOf(Column(grads, d)) <= hi
  {
    var col, t := Column(grads, d), Dishonest(honest);
    OutsidersAreDishonest(grads, honest, d, lo, hi);
    ColumnLength(grads, d, dim);
    hide Sort, Count, Column;
    var m := |col|;
    MiddleInRange(col, t, lo, hi, m / 2);
    if m % 2 == 0 {
      MiddleInRange(col, t, lo, hi, m / 2 - 1);
    }
  }

  /** The trimmed mean resists as many arbitrary vectors as it trims. */
  lemma TrimmedMeanTolerance(grads: seq<Vector>, honest: seq<bool>, dim: nat, trim: nat, d: nat, lo: real, hi: real)
    requires |honest| == |grads| && SameDimension(grads, dim) && d < dim
    requires Dishonest(honest) <= trim && |grads| > 2 * trim
    requires HonestWithin(grads, honest, d, lo, hi)
    ensures lo <= TrimmedMeanOf(Column(grads, d), trim) <= hi
  {
    var col := Column(grads, d);
    OutsidersAreDishonest(grads, honest, d, lo, hi);
    ColumnLength(grads, d, dim);
    hide Count, Column;
    var kept := Sort(col, RealLeq)[trim..|col| - trim];
    forall i | 0 <= i < |kept|
      ensures lo <= kept[i] <= hi
    {
      MiddleInRange(col, trim, lo, hi, trim + i);
    }
    hide Sort, Sum;
    MeanInRange(kept, lo, hi);
  }

  method CollectColumn(grads: seq<Vector>, d: nat) returns (col: seq<real>)
    ensures col == Column(grads, d)
  {
    col := [];
    for i := 0 to |grads|
      invariant col == Column(grads[..i], d)
    {
      assert grads[..i + 1][..i] == grads[..i];
      if d < |grads[i]| {
        col := col + [grads[i][d]];
      }
    }
    assert grads[..|grads|] == grads;
  }

  method Median(grads: seq<Vector>) returns (out: seq<real>)
    ensures grads == [] ==> out == []
    ensures grads != [] ==> |out| == |grads[0]|
    ensures grads != [] ==> forall d :: 0 <= d < |out| ==> out[d] == MedianOf(Column(grads, d))
  {
    hide Sort, Column;
    if grads == [] {
      return [];
    }
    var dim := |grads[0]|;
    var o := new real[dim](_ => 0.0);
    for d := 0 to dim
      invariant forall k :: 0 <= k < d ==> o[k] == MedianOf(Column(grads, k))
      invariant forall k :: d <= k < dim ==> o[k] == 0.0
    {
      var col := CollectColumn(grads, d);
      if col != [] {
        var sorted := Sort(col, RealLeq);
        var m := |sorted|;
        o[d] := if m % 2 == 1 then sorted[m / 2] else 0.5 * (sorted[m / 2 - 1] + sorted[m / 2]);
      }
    }
    out := o[..];
  }

  /** A running sum over part of a list. */
  method SumRange(s: seq<real>, lo: nat, hi: nat) returns (total: real)
    requires lo <= hi <= |s|
    ensures total == Sum(s[lo..hi])
  {
    total := 0.0;
    for i := lo to hi
      invariant total == Sum(s[lo..i])
    {
      total := total + s[i];
      assert s[lo..i + 1][..i - lo] == s[lo..i];
    }
  }

  /** A negative trim makes the source read past the end of the column. */
  method TrimmedMean(grads: seq<Vector>, trim: int) returns (out: seq<real>)
    requires trim >= 0
    ensures grads == [] ==> out == []
    ensures grads != [] ==> |out| == |grads[0]|
    ensures grads != [] ==> forall d :: 0 <= d < |out| ==> out[d] == TrimmedMeanOf(Column(grads, d), trim)
  {
    hide Sort, Column, Sum;
    if grads == [] {
      return [];
    }
    var dim := |grads[0]|;
    var o := new real[dim](_ => 0.0);
    for d := 0 to dim
      invariant forall k :: 0 <= k < d ==> o[k] == TrimmedMeanOf(Column(grads, k), trim)
    {
      var col := CollectColumn(grads, d);
      var sorted := Sort(col, RealLeq);
      var n := |sorted|;
      var lo := Max(0, trim);
      var hi := Max(lo, n - trim);
      if hi <= lo {
        var total := SumRange(sorted, 0, n);
        assert sorted[0..n] == sorted;
        o[d] := total / Max(1, n) as real;
      } else {
        var s := SumRange(sorted, lo, hi);
        o[d] := s / (hi - lo) as real;
      }
    }
    out := o[..];
  }

  // ------------------------------------------------------------ Krum

  /** Few neighbours of i lie beyond x if every honest vector lies within x. */
  lemma {:induction false} HonestNeighbours(grads: seq<Vector>, honest: seq<bool>, i: nat, m: nat, x: real)
    requires i < |grads| == |honest| && m <= |grads|
    requires forall j :: 0 <= j < m && j != i && honest[j] ==> SqDist(grads[i], grads[j]) <= x
    ensures Count(Row(grads, i, m), AtMost(x)) + Count(honest[..m], No) >= if i < m then m - 1 else m
  {
    if m > 0 {
      HonestNeighbours(grads, honest, i, m - 1, x);
      assert honest[..m] == honest[..m - 1] + [honest[m - 1]];
      CountConcat(honest[..m - 1], [honest[m - 1]], No);
      var tail := if m - 1 != i then [SqDist(grads[i], grads[m - 1])] else [];
      CountConcat(Row(grads, i, m - 1), tail, AtMost(x));
    }
  }

  /** Only dishonest vectors are within x of i if no honest one is. */
  lemma {:induction false} DishonestNeighbours(grads: seq<Vector>, honest: seq<bool>, i: nat, m: nat, x: real)
    requires i < |grads| == |honest| && m <= |grads|
    requires forall j :: 0 <= j < m && j != i && honest[j] ==> SqDist(grads[i], grads[j]) > x
    ensures Count(Row(grads, i, m), AtMost(x)) <= Count(honest[..m], No)
  {
    if m > 0 {
      DishonestNeighbours(grads, honest, i, m - 1, x);
      assert honest[..m] == honest[..m - 1] + [honest[m - 1]];
      CountConcat(honest[..m - 1], [honest[m - 1]], No);
      var tail := if m - 1 != i then [SqDist(grads[i], grads[m - 1])] else [];
      CountConcat(Row(grads, i, m - 1), tail, AtMost(x));
    }
  }

  lemma {:induction false} RowNonNegative(grads: seq<Vector>, i: nat, m: nat)
    requires i < |grads| && m <= |grads|
    ensures forall v :: v in Row(grads, i, m) ==> 0.0 <= v
  {
    if m > 0 {
      RowNonNegative(grads, i, m - 1);
      SqDistFacts(grads[i], grads[m - 1], Min(|grads[i]|, |grads[m - 1]|));
    }
  }

  lemma {:induction false} SumAbove(s: seq<real>, j: nat)
    requires j < |s| && forall i :: 0 <= i < |s| ==> 0.0 <= s[i]
    ensures s[j] <= Sum(s)
  {
    var n := |s| - 1;
    SumInRange2(s[..n]);
    if j < n {
      SumAbove(s[..n], j);
    }
  }

  lemma {:induction false} SumInRange2(s: seq<real>)
    requires forall i :: 0 <= i < |s| ==> 0.0 <= s[i]
    ensures 0.0 <= Sum(s)
  {
    if s != [] {
      SumInRange2(s[..|s| - 1]);
    }
  }

  /** An honest vector's score is at most (n - f - 2) D. */
  lemma HonestScore(grads: seq<Vector>, f: nat, honest: seq<bool>, D: real, i: nat)
    requires |honest| == |grads| >= 2 * f + 3 && Dishonest(honest) <= f
    requires i < |grads| && forall j :: 0 <= j < |grads| && honest[j] ==> SqDist(grads[i], grads[j]) <= D
    ensures Score(grads, f, i) <= (|grads| - f - 2) as real * D
  {
    hide Row, Count, Sum, Score, Sort, SqDist;
    var n := |grads|;
    var row, k := Row(grads, i, n), n - f - 2;
    HonestNeighbours(grads, honest, i, n, D);
    ScoreParts(grads, f, i);
    assert honest[..n] == honest;
    NearestWithin(row, k, D);
    BoundedSum(Sort(row, RealLeq)[..k], D);
  }

  lemma NearestWithin(row: seq<real>, k: nat, x: real)
    requires k <= Count(row, AtMost(x))
    ensures k <= |row| && forall i :: 0 <= i < k ==> AtMost(x)(Sort(row, RealLeq)[i])
  {
    hide Count, Sort;
    RealOrder();
    SmallestSatisfy(row, RealLeq, k, AtMost(x));
  }

  lemma ScoreParts(grads: seq<Vector>, f: nat, i: nat)
    requires |grads| >= 2 * f + 3 && i < |grads|
    ensures |Row(grads, i, |grads|)| == |grads| - 1
    ensures Score(grads, f, i) == Sum(Sort(Row(grads, i, |grads|), RealLeq)[..|grads| - f - 2])
  {
    RowLength(grads, i, |grads|);
  }

  lemma {:induction false} BoundedSum(s: seq<real>, x: real)
    requires forall i :: 0 <= i < |s| ==> AtMost(x)(s[i])
    ensures Sum(s) <= |s| as real * x
  {
    if s != [] {
      BoundedSum(s[..|s| - 1], x);
      assert |s| as real * x == (|s| - 1) as real * x + x;
    }
  }

  /** Any vector is within its own score of an honest one: its neighbours outnumber the dishonest. */
  lemma HonestNear(grads: seq<Vector>, f: nat, honest: seq<bool>, i: nat) returns (h: nat)
    requires |honest| == |grads| >= 2 * f + 3 && Dishonest(honest) <= f && i < |grads|
    ensures h < |grads| && honest[h] && SqDist(grads[i], grads[h]) <= Score(grads, f, i)
  {
    var n := |grads|;
    var row, k, x := Row(grads, i, n), n - f - 2, Score(grads, f, i);
    ScoreParts(grads, f, i);
    RowNonNegative(grads, i, n);
    hide Score, Row, Sum, Sort, SqDist;
    PrefixWithinSum(row, k);
    CountAtLeast(Sort(row, RealLeq), k, AtMost(x));
    CountSort(row, RealLeq, AtMost(x));
    assert honest[..n] == honest;
    if forall j :: 0 <= j < n && j != i && honest[j] ==> SqDist(grads[i], grads[j]) > x {
      DishonestNeighbours(grads, honest, i, n, x);
      assert false;
    }
    h :| 0 <= h < n && h != i && honest[h] && SqDist(grads[i], grads[h]) <= x;
  }

  /** No term of a sum of non-negative terms exceeds the sum. */
  lemma PrefixWithinSum(row: seq<real>, k: nat)
    requires k <= |row| && forall v :: v in row ==> 0.0 <= v
    ensures forall j :: 0 <= j < k ==> AtMost(Sum(Sort(row, RealLeq)[..k]))(Sort(row, RealLeq)[j])
  {
    var s := Sort(row, RealLeq);
    var near := s[..k];
    SortPermutes(row, RealLeq);
    hide Sort, Sum;
    forall j | 0 <= j < |near|
      ensures 0.0 <= near[j]
    {
      assert near[j] in multiset(s);
      assert near[j] in row;
    }
    forall j | 0 <= j < k
      ensures AtMost(Sum(near))(s[j])
    {
      assert near[j] == s[j];
      SumAbove(near, j);
    }
  }

  predicate Minimal(grads: seq<Vector>, f: int, best: nat)
    requires best < |grads|
  {
    forall i :: 0 <= i < |grads| ==> Score(grads, f, best) <= Score(grads, f, i)
  }

  /** Krum's guarantee: the choice is within (n - f - 2) D of some honest vector. */
  lemma KrumTolerance(grads: seq<Vector>, f: nat, honest: seq<bool>, D: real, best: nat)
    requires |honest| == |grads| >= 2 * f + 3 && Dishonest(honest) <= f
    requires forall i, j :: 0 <= i < |grads| && 0 <= j < |grads| && honest[i] && honest[j]
               ==> SqDist(grads[i], grads[j]) <= D
    requires best < |grads| && Minimal(grads, f, best)
    ensures exists h :: 0 <= h < |grads| && honest[h]
              && SqDist(grads[best], grads[h]) <= (|grads| - f - 2) as real * D
  {
    var h := HonestNear(grads, f, honest, best);
    HonestScore(grads, f, honest, D, h);
  }

  // ------------------------------------------------------------ Krum, the code

  method SquaredDistance(a: Vector, b: Vector) returns (s: real)
    ensures s == SqDist(a, b)
  {
    s := 0.0;
    var n := Min(|a|, |b|);
    for i := 0 to n
      invariant s == SqDistTo(a, b, i)
    {
      var d := a[i] - b[i];
      s := s + d * d;
    }
  }

  /** The symmetric matrix of pairwise squared distances, each computed once. */
  method DistanceMatrix(grads: seq<Vector>) returns (dist: array2<real>)
    ensures fresh(dist) && dist.Length0 == dist.Length1 == |grads|
    ensures forall i, j :: 0 <= i < |grads| && 0 <= j < |grads| ==> dist[i, j] == SqDist(grads[i], grads[j])
  {
    hide SqDist;
    var n := |grads|;
    dist := new real[n, n]((_, _) => 0.0);
    for i := 0 to n
      invariant forall p, q :: 0 <= p < n && 0 <= q < n && p != q && (p < i || q < i) ==>
        dist[p, q] == SqDist(grads[p], grads[q])
      invariant forall p :: 0 <= p < n ==> dist[p, p] == 0.0
    {
      for j := i + 1 to n
        invariant forall p, q :: 0 <= p < n && 0 <= q < n && p != q && (p < i || q < i) ==>
          dist[p, q] == SqDist(grads[p], grads[q])
        invariant forall p :: 0 <= p < n ==> dist[p, p] == 0.0
        invariant forall q :: i < q < j ==> dist[i, q] == SqDist(grads[i], grads[q])
        invariant forall q :: i < q < j ==> dist[q, i] == SqDist(grads[q], grads[i])
      {
        var dd := SquaredDistance(grads[i], grads[j]);
        DistanceSymmetric(grads[i], grads[j]);
        dist[i, j] := dd;
        dist[j, i] := dd;
      }
    }
    forall p | 0 <= p < n
      ensures dist[p, p] == SqDist(grads[p], grads[p])
    {
      DistanceSymmetric(grads[p], grads[p]);
    }
  }

  lemma DistanceSymmetric(a: Vector, b: Vector)
    ensures SqDist(a, b) == SqDist(b, a)
    ensures a == b ==> SqDist(a, b) == 0.0
  {
    SqDistFacts(a, b, Min(|a|, |b|));
  }

  /** The score of vector i, read off the distance matrix. */
  method ScoreOf(grads: seq<Vector>, f: int, dist: array2<real>, i: nat) returns (score: real)
    requires i < |grads| && dist.Length0 == dist.Length1 == |grads|
    requires forall p, q :: 0 <= p < |grads| && 0 <= q < |grads| ==> dist[p, q] == SqDist(grads[p], grads[q])
    ensures score == Score(grads, f, i)
  {
    hide SqDist, Sort, Sum;
    var n := |grads|;
    var d := [];
    for j := 0 to n
      invariant d == Row(grads, i, j)
    {
      if j != i {
        d := d + [dist[i, j]];
      }
    }
    RowLength(grads, i, n);
    var sorted := Sort(d, RealLeq);
    var keep := Max(n - f - 2, 1);
    var k := Min(keep, |d|);
    score := SumRange(sorted, 0, k);
    assert sorted[0..k] == sorted[..k];
  }

  /** krumSelect: the first vector of minimal score; -1 only when there is no vector at all. */
  method KrumSelect(grads: seq<Vector>, f: int) returns (best: int)
    ensures grads == [] ==> best == -1
    ensures grads != [] ==> 0 <= best < |grads| && Minimal(grads, f, best)
    ensures grads != [] ==> forall i :: 0 <= i < best ==> Score(grads, f, i) > Score(grads, f, best)
  {
    hide Score, SqDist;
    var n := |grads|;
    if n <= 0 {
      return -1;
    }
    if n == 1 {
      return 0;
    }
    var dist := DistanceMatrix(grads);
    best := -1;
    var bestScore := 0.0;
    for i := 0 to n
      invariant best < 0 <==> i == 0
      invariant best >= 0 ==> best < i && bestScore == Score(grads, f, best)
      invariant best >= 0 ==> forall j :: 0 <= j < i ==> bestScore <= Score(grads, f, j)
      invariant best >= 0 ==> forall j :: 0 <= j < best ==> Score(grads, f, j) > bestScore
      invariant forall p, q :: 0 <= p < |grads| && 0 <= q < |grads| ==> dist[p, q] == SqDist(grads[p], grads[q])
    {
      var score := ScoreOf(grads, f, dist, i);
      if best < 0 || score < bestScore {
        bestScore := score;
        best := i;
      }
    }
  }

  method Krum(grads: seq<Vector>, f: int) returns (g: Vector)
    ensures grads == [] ==> g == []
    ensures grads != [] ==> exists i :: 0 <= i < |grads| && Minimal(grads, f, i) && g == grads[i]
  {
    var idx := KrumSelect(grads, f);
    g := if idx >= 0 then grads[idx] else [];
  }

  // ------------------------------------------------------------ Multi-Krum

  datatype Scored = Scored(score: real, index: nat)

  predicate ScoredLeq(x: Scored, y: Scored) { x.score < y.score || (x.score == y.score && x.index <= y.index) }

  function Scores(grads: seq<Vector>, f: int, n: nat): (s: seq<Scored>)
    requires n <= |grads|
    ensures |s| == n && forall i :: 0 <= i < n ==> s[i] == Scored(Score(grads, f, i), i)
  {
    seq(n, i requires 0 <= i < n => Scored(Score(grads, f, i), i))
  }

  function Ranking(grads: seq<Vector>, f: int): seq<Scored> { Sort(Scores(grads, f, |grads|), ScoredLeq) }

  function ScoreAtMost(x: real): Scored -> bool { (v: Scored) => v.score <= x }

  /** As long as no more vectors are averaged than are honest, every one of them is near an honest one. */
  lemma MultiKrumTolerance(grads: seq<Vector>, f: nat, honest: seq<bool>, D: real, t: nat)
    requires |honest| == |grads| >= 2 * f + 3 && Dishonest(honest) <= f
    requires forall i, j :: 0 <= i < |grads| && 0 <= j < |grads| && honest[i] && honest[j]
               ==> SqDist(grads[i], grads[j]) <= D
    requires t < |grads| - f
    ensures t < |Ranking(grads, f)| && Ranking(grads, f)[t].index < |grads|
    ensures exists h :: 0 <= h < |grads| && honest[h]
              && SqDist(grads[Ranking(grads, f)[t].index], grads[h]) <= (|grads| - f - 2) as real * D
  {
    hide *;
    RankedScore(grads, f, honest, D, t);
    var h := HonestNear(grads, f, honest, Ranking(grads, f)[t].index);
  }

  /** The best-ranked inputs, as many as are honest, have scores no higher than honest ones. */
  lemma RankedScore(grads: seq<Vector>, f: nat, honest: seq<bool>, D: real, t: nat)
    requires |honest| == |grads| >= 2 * f + 3 && Dishonest(honest) <= f
    requires forall i, j :: 0 <= i < |grads| && 0 <= j < |grads| && honest[i] && honest[j]
               ==> SqDist(grads[i], grads[j]) <= D
    requires t < |grads| - f
    ensures t < |Ranking(grads, f)| && Ranking(grads, f)[t].index < |grads|
    ensures Score(grads, f, Ranking(grads, f)[t].index) <= (|grads| - f - 2) as real * D
  {
    hide Score, SqDist, Sort, Count, ScoreAtMost;
    var n, bound := |grads|, (|grads| - f - 2) as real * D;
    HonestScores(grads, f, honest, D, n, bound);
    assert honest[..n] == honest;
    LowRanked(Scores(grads, f, n), bound, n - f, t);
  }

  lemma LowRanked(scores: seq<Scored>, bound: real, k: nat, t: nat)
    requires k <= Count(scores, ScoreAtMost(bound)) && t < k
    ensures t < |scores| && Sort(scores, ScoredLeq)[t] in scores && Sort(scores, ScoredLeq)[t].score <= bound
  {
    hide Count, Sort;
    ScoredOrder();
    SmallestSatisfy(scores, ScoredLeq, k, ScoreAtMost(bound));
    SortPermutes(scores, ScoredLeq);
    var sorted := Sort(scores, ScoredLeq);
    assert ScoreAtMost(bound)(sorted[t]);
    assert sorted[t] in multiset(sorted);
  }

  lemma ScoredOrder()
    ensures TotalOrder(ScoredLeq)
  {
  }

  lemma {:induction false} HonestScores(grads: seq<Vector>, f: nat, honest: seq<bool>, D: real, m: nat, bound: real)
    requires |honest| == |grads| >= 2 * f + 3 && Dishonest(honest) <= f && m <= |grads|
    requires forall i, j :: 0 <= i < |grads| && 0 <= j < |grads| && honest[i] && honest[j]
               ==> SqDist(grads[i], grads[j]) <= D
    requires bound == (|grads| - f - 2) as real * D
    ensures Count(Scores(grads, f, m), ScoreAtMost(bound)) + Count(honest[..m], No) >= m
  {
    hide Score, SqDist, Dishonest;
    if m > 0 {
      HonestScores(grads, f, honest, D, m - 1, bound);
      assert honest[..m] == honest[..m - 1] + [honest[m - 1]];
      CountConcat(honest[..m - 1], [honest[m - 1]], No);
      var last := Scored(Score(grads, f, m - 1), m - 1);
      assert Scores(grads, f, m) == Scores(grads, f, m - 1) + [last];
      CountConcat(Scores(grads, f, m - 1), [last], ScoreAtMost(bound));
      CountOne(honest[m - 1], No);
      CountOne(last, ScoreAtMost(bound));
      if honest[m - 1] {
        HonestScore(grads, f, honest, D, m - 1);
      }
    }
  }

  /** The sum of coordinate d over the first `take` vectors of a ranking. */
  function RankedSum(grads: seq<Vector>, ranking: seq<Scored>, take: nat, d: nat): real
    requires take <= |ranking| && forall t :: 0 <= t < take ==> ranking[t].index < |grads|
  {
    if take == 0 then 0.0
    else
      var g := grads[ranking[take - 1].index];
      RankedSum(grads, ranking, take - 1, d) + if d < |g| then g[d] else 0.0
  }

  /** No coordinate differs by more than the whole distance. */
  lemma {:induction false} CoordinateWithin(a: Vector, b: Vector, n: nat, d: nat)
    requires d < n && n <= |a| && n <= |b|
    ensures (a[d] - b[d]) * (a[d] - b[d]) <= SqDistTo(a, b, n)
  {
    hide SqDistTo;
    SqDistFacts(a, b, n - 1);
    SqDistNext(a, b, n);
    SquareNotNegative(a[n - 1] - b[n - 1]);
    if d < n - 1 {
      CoordinateWithin(a, b, n - 1, d);
    }
  }

  lemma SqDistNext(a: Vector, b: Vector, n: nat)
    requires 0 < n && n <= |a| && n <= |b|
    ensures SqDistTo(a, b, n) == SqDistTo(a, b, n - 1) + (a[n - 1] - b[n - 1]) * (a[n - 1] - b[n - 1])
  {
  }

  lemma SquareNotNegative(x: real)
    ensures x * x >= 0.0
  {
    if x > 0.0 {
      RealMulStrict(0.0, x, x);
    } else if x < 0.0 {
      RealMulStrict(0.0, -x, -x);
    }
  }

  lemma RootBound(x: real, e: real)
    requires e >= 0.0 && x * x <= e * e
    ensures -e <= x <= e
  {
    if x > e {
      SquareLess(e, x);
    } else if x < -e {
      SquareLess(e, -x);
    }
  }

  lemma SquareLess(e: real, x: real)
    requires 0.0 <= e < x
    ensures e * e < x * x
  {
    RealMulStrict(0.0, x - e, x + e);
    assert (x - e) * (x + e) == x * x - e * e;
  }

  /** Each of the best-ranked inputs is within e of the honest range, e squared being Krum's bound. */
  lemma RankedNear(grads: seq<Vector>, f: nat, honest: seq<bool>, D: real, dim: nat, d: nat,
                   lo: real, hi: real, e: real, t: nat)
    requires |honest| == |grads| >= 2 * f + 3 && Dishonest(honest) <= f
    requires forall i, j :: 0 <= i < |grads| && 0 <= j < |grads| && honest[i] && honest[j]
               ==> SqDist(grads[i], grads[j]) <= D
    requires SameDimension(grads, dim) && d < dim && HonestWithin(grads, honest, d, lo, hi)
    requires e >= 0.0 && (|grads| - f - 2) as real * D <= e * e && t < |grads| - f
    ensures t < |Ranking(grads, f)| && Ranking(grads, f)[t].index < |grads|
    ensures lo - e <= grads[Ranking(grads, f)[t].index][d] <= hi + e
  {
    hide Ranking, Dishonest, SqDistTo;
    MultiKrumTolerance(grads, f, honest, D, t);
    var a := grads[Ranking(grads, f)[t].index];
    var h :| 0 <= h < |grads| && honest[h] && SqDist(a, grads[h]) <= (|grads| - f - 2) as real * D;
    CoordinateWithin(a, grads[h], dim, d);
    RootBound(a[d] - grads[h][d], e);
  }

  lemma {:induction false} RankedSumBounds(grads: seq<Vector>, ranking: seq<Scored>, take: nat, dim: nat, d: nat,
                                           lo: real, hi: real)
    requires SameDimension(grads, dim) && d < dim && take <= |ranking|
    requires forall t :: 0 <= t < take ==> ranking[t].index < |grads| && lo <= grads[ranking[t].index][d] <= hi
    ensures take as real * lo <= RankedSum(grads, ranking, take, d) <= take as real * hi
  {
    if take > 0 {
      RankedSumBounds(grads, ranking, take - 1, dim, d, lo, hi);
      OneMore((take - 1) as real, lo);
      OneMore((take - 1) as real, hi);
    }
  }

  /**
   * Multi-Krum's guarantee for its result: when no more inputs are averaged than are honest, every coordinate of
   * the mean lies within e of the honest range, where e squared is at least (n - f - 2) D.
   */
  lemma MultiKrumMean(grads: seq<Vector>, f: nat, honest: seq<bool>, D: real, dim: nat, d: nat,
                      lo: real, hi: real, e: real, take: nat)
    requires |honest| == |grads| >= 2 * f + 3 && Dishonest(honest) <= f
    requires forall i, j :: 0 <= i < |grads| && 0 <= j < |grads| && honest[i] && honest[j]
               ==> SqDist(grads[i], grads[j]) <= D
    requires SameDimension(grads, dim) && d < dim && HonestWithin(grads, honest, d, lo, hi)
    requires e >= 0.0 && (|grads| - f - 2) as real * D <= e * e && 1 <= take <= |grads| - f
    ensures take <= |Ranking(grads, f)| && forall t :: 0 <= t < take ==> Ranking(grads, f)[t].index < |grads|
    ensures lo - e <= RankedSum(grads, Ranking(grads, f), take, d) / take as real <= hi + e
  {
    hide Ranking, Dishonest, SqDist, SameDimension, HonestWithin, RankedSum;
    RankingIndices(grads, f);
    var ranking := Ranking(grads, f);
    forall t | 0 <= t < take
      ensures d < |grads[ranking[t].index]| && lo - e <= grads[ranking[t].index][d] <= hi + e
    {
      DimensionOf(grads, dim, ranking[t].index);
      RankedNear(grads, f, honest, D, dim, d, lo, hi, e, t);
    }
    DimensionsOf(grads, dim);
    RankedSumBounds(grads, ranking, take, dim, d, lo - e, hi + e);
    QuotientBounds(RankedSum(grads, ranking, take, d), take as real, lo - e, hi + e);
  }

  lemma DimensionOf(grads: seq<Vector>, dim: nat, i: nat)
    requires SameDimension(grads, dim) && i < |grads|
    ensures |grads[i]| == dim
  {
  }

  lemma DimensionsOf(grads: seq<Vector>, dim: nat)
    requires SameDimension(grads, dim)
    ensures forall i :: 0 <= i < |grads| ==> |grads[i]| == dim
  {
  }

  lemma RankingIndices(grads: seq<Vector>, f: int)
    ensures |Ranking(grads, f)| == |grads|
    ensures forall t :: 0 <= t < |grads| ==> Ranking(grads, f)[t].index < |grads|
  {
    var scores, r := Scores(grads, f, |grads|), Ranking(grads, f);
    SortPermutes(scores, ScoredLeq);
    forall t | 0 <= t < |grads|
      ensures r[t].index < |grads|
    {
      assert r[t] in multiset(r) && r[t] in scores;
    }
  }

  /** multiKrum: the coordinate-wise mean of the best-ranked vectors. */
  method MultiKrum(grads: seq<Vector>, f: int, m: int) returns (out: seq<real>)
    ensures grads == [] ==> out == []
    ensures grads != [] ==>
      var take := Min(Max(1, m), |grads|);
      && |out| == |grads[0]| && |Ranking(grads, f)| == |grads|
      && (forall t :: 0 <= t < |grads| ==> Ranking(grads, f)[t].index < |grads|)
      && forall d :: 0 <= d < |out| ==> out[d] == RankedSum(grads, Ranking(grads, f), take, d) / take as real
  {
    hide Score, SqDist, Ranking;
    var n := |grads|;
    if n <= 0 {
      return [];
    }
    RankingIndices(grads, f);
    var scored := RankAll(grads, f);
    var take := Min(Max(1, m), n);
    var dim := |grads[0]|;
    var o := new real[dim](_ => 0.0);
    for t := 0 to take
      invariant forall d :: 0 <= d < dim ==> o[d] == RankedSum(grads, scored, t, d)
    {
      var g := grads[scored[t].index];
      for d := 0 to dim
        invariant forall k :: 0 <= k < d ==> o[k] == RankedSum(grads, scored, t + 1, k)
        invariant forall k :: d <= k < dim ==> o[k] == RankedSum(grads, scored, t, k)
      {
        if d < |g| {
          o[d] := o[d] + g[d];
        }
      }
    }
    ghost var sums := o[..];
    for d := 0 to dim
      invariant forall k :: 0 <= k < d ==> o[k] == sums[k] / take as real
      invariant forall k :: d <= k < dim ==> o[k] == sums[k]
    {
      o[d] := o[d] / take as real;
    }
    out := o[..];
  }

  method RankAll(grads: seq<Vector>, f: int) returns (scored: seq<Scored>)
    ensures scored == Ranking(grads, f)
  {
    hide Score, SqDist, Sort;
    var dist := DistanceMatrix(grads);
    scored := [];
    for i := 0 to |grads|
      invariant scored == Scores(grads, f, i)
      invariant forall p, q :: 0 <= p < |grads| && 0 <= q < |grads| ==> dist[p, q] == SqDist(grads[p], grads[q])
    {
      var s := ScoreOf(grads, f, dist, i);
      scored := scored + [Scored(s, i)];
    }
    scored := Sort(scored, ScoredLeq);
  }
}
