/** `std::sort` as a function: the sorted permutation, with the counting facts that follow from it. */
module Sorting {
  function Insert<T>(x: T, s: seq<T>, leq: (T, T) -> bool): (r: seq<T>)
    ensures |r| == |s| + 1
  {
    if s == [] || leq(x, s[0]) then [x] + s else [s[0]] + Insert(x, s[1..], leq)
  }

  function Sort<T>(s: seq<T>, leq: (T, T) -> bool): (r: seq<T>)
    ensures |r| == |s|
  {
    if s == [] then [] else Insert(s[0], Sort(s[1..], leq), leq)
  }

  ghost predicate TotalOrder<T(!new)>(leq: (T, T) -> bool) {
    && (forall x, y :: leq(x, y) || leq(y, x))
    && (forall x, y, z :: leq(x, y) && leq(y, z) ==> leq(x, z))
  }

  predicate Sorted<T>(s: seq<T>, leq: (T, T) -> bool) {
    forall i, j :: 0 <= i < j < |s| ==> leq(s[i], s[j])
  }

  lemma {:induction false} InsertSorted<T(!new)>(x: T, s: seq<T>, leq: (T, T) -> bool)
    requires TotalOrder(leq) && Sorted(s, leq)
    ensures Sorted(Insert(x, s, leq), leq)
    ensures forall y :: y in Insert(x, s, leq) <==> y == x || y in s
  {
    if s == [] {
    } else if leq(x, s[0]) {
    } else {
      var rest := Insert(x, s[1..], leq);
      InsertSorted(x, s[1..], leq);
      assert s == [s[0]] + s[1..];
      forall k | 0 <= k < |rest|
        ensures leq(s[0], rest[k])
      {
        assert rest[k] in rest;
      }
    }
  }

  lemma {:induction false} SortSorted<T(!new)>(s: seq<T>, leq: (T, T) -> bool)
    requires TotalOrder(leq)
    ensures Sorted(Sort(s, leq), leq)
  {
    if s != [] {
      SortSorted(s[1..], leq);
      InsertSorted(s[0], Sort(s[1..], leq), leq);
    }
  }

  lemma {:induction false} InsertMultiset<T>(x: T, s: seq<T>, leq: (T, T) -> bool)
    ensures multiset(Insert(x, s, leq)) == multiset{x} + multiset(s)
  {
    if s == [] || leq(x, s[0]) {
    } else {
      InsertMultiset(x, s[1..], leq);
      assert s == [s[0]] + s[1..];
    }
  }

  lemma {:induction false} SortPermutes<T>(s: seq<T>, leq: (T, T) -> bool)
    ensures multiset(Sort(s, leq)) == multiset(s)
  {
    if s != [] {
      SortPermutes(s[1..], leq);
      InsertMultiset(s[0], Sort(s[1..], leq), leq);
      assert s == [s[0]] + s[1..];
    }
  }

  // ------------------------------------------------------------ counting

  function Count<T>(s: seq<T>, p: T -> bool): nat {
    if s == [] then 0 else (if p(s[0]) then 1 else 0) + Count(s[1..], p)
  }

  lemma {:induction false} CountConcat<T>(s: seq<T>, t: seq<T>, p: T -> bool)
    ensures Count(s + t, p) == Count(s, p) + Count(t, p)
  {
    if s == [] {
      assert s + t == t;
    } else {
      CountConcat(s[1..], t, p);
      assert (s + t)[1..] == s[1..] + t;
    }
  }

  lemma {:induction false} CountInsert<T>(x: T, s: seq<T>, leq: (T, T) -> bool, p: T -> bool)
    ensures Count(Insert(x, s, leq), p) == (if p(x) then 1 else 0) + Count(s, p)
  {
    if s == [] || leq(x, s[0]) {
      assert ([x] + s)[1..] == s;
    } else {
      CountInsert(x, s[1..], leq, p);
    }
  }

  lemma {:induction false} CountSort<T>(s: seq<T>, leq: (T, T) -> bool, p: T -> bool)
    ensures Count(Sort(s, leq), p) == Count(s, p)
  {
    if s != [] {
      CountSort(s[1..], leq, p);
      CountInsert(s[0], Sort(s[1..], leq), leq, p);
    }
  }

  lemma {:induction false} CountAll<T>(s: seq<T>, p: T -> bool)
    ensures Count(s, p) <= |s|
    ensures (forall i :: 0 <= i < |s| ==> p(s[i])) ==> Count(s, p) == |s|
    ensures (forall i :: 0 <= i < |s| ==> !p(s[i])) ==> Count(s, p) == 0
  {
    if s != [] {
      CountAll(s[1..], p);
      assert forall i :: 0 <= i < |s| - 1 ==> s[1..][i] == s[i + 1];
    }
  }

  lemma CountOne<T>(x: T, p: T -> bool)
    ensures Count([x], p) == if p(x) then 1 else 0
  {
    assert [x][1..] == [];
  }

  /** If the first k elements satisfy p, at least k do. */
  lemma CountAtLeast<T>(s: seq<T>, k: nat, p: T -> bool)
    requires k <= |s| && forall i :: 0 <= i < k ==> p(s[i])
    ensures k <= Count(s, p)
  {
    assert s == s[..k] + s[k..];
    CountConcat(s[..k], s[k..], p);
    CountAll(s[..k], p);
  }

  /** If p is closed downwards and at least k elements satisfy it, the k first of the sorted list do. */
  lemma SmallestSatisfy<T(!new)>(s: seq<T>, leq: (T, T) -> bool, k: nat, p: T -> bool)
    requires TotalOrder(leq) && k <= Count(s, p)
    requires forall x, y :: leq(x, y) && p(y) ==> p(x)
    ensures k <= |s| && forall i :: 0 <= i < k ==> p(Sort(s, leq)[i])
  {
    CountAll(s, p);
    var r := Sort(s, leq);
    SortSorted(s, leq);
    CountSort(s, leq, p);
    forall i | 0 <= i < k
      ensures p(r[i])
    {
      if !p(r[i]) {
        assert r == r[..i] + r[i..];
        CountConcat(r[..i], r[i..], p);
        CountAll(r[..i], p);
        assert leq(r[i], r[i]);
        forall j | 0 <= j < |r[i..]|
          ensures !p(r[i..][j])
        {
          assert r[i..][j] == r[i + j] && leq(r[i], r[i + j]);
        }
        CountAll(r[i..], p);
      }
    }
  }
}
