/** The consistent-hash ring: src/advanced/distributed.cpp, lines 25-70, over any 64-bit hash function. */
module HashRing {
  import opened Machine

  // ------------------------------------------------------------ points and owners

  /** One entry of the ordered map `ring_`. */
  datatype Entry = Entry(key: uint64, node: string)

  /** The map as its entries in key order. */
  predicate InOrder(ring: seq<Entry>) { forall i, j :: 0 <= i < j < |ring| ==> ring[i].key < ring[j].key }

  function Decimal(n: nat): string {
    if n < 10 then ["0123456789"[n]] else Decimal(n / 10) + ["0123456789"[n % 10]]
  }

  /** Where virtual node i of a node sits. */
  function Point(hash: string -> uint64, node: string, i: nat): uint64 { hash(node + "#" + Decimal(i)) }

  /** Clockwise distance on the ring of 64-bit numbers. */
  function Distance(h: uint64, k: uint64): int { if k >= h then k as int - h else k as int - h + TWO_64 }

  predicate Has(ring: seq<Entry>, e: Entry) { e in ring }

  /** e is the entry of the ring that comes first clockwise from h. */
  ghost predicate IsNext(ring: seq<Entry>, h: uint64, e: Entry) {
    Has(ring, e) && forall f :: Has(ring, f) ==> Distance(h, e.key) <= Distance(h, f.key)
  }

  /** lower_bound, wrapped around at the end. */
  function NextIndex(ring: seq<Entry>, h: uint64): (i: nat)
    requires ring != []
    ensures i < |ring|
  {
    var i := LowerBound(ring, h);
    if i == |ring| then 0 else i
  }

  function LowerBound(ring: seq<Entry>, h: uint64): (i: nat)
    ensures i <= |ring|
    ensures forall j :: 0 <= j < i ==> ring[j].key < h
    ensures i < |ring| ==> ring[i].key >= h
  {
    if ring == [] || ring[0].key >= h then 0 else 1 + LowerBound(ring[1..], h)
  }

  lemma NextIndexIsNext(ring: seq<Entry>, h: uint64)
    requires InOrder(ring) && ring != []
    ensures IsNext(ring, h, ring[NextIndex(ring, h)])
  {
    var i := NextIndex(ring, h);
    forall f | Has(ring, f)
      ensures Distance(h, ring[i].key) <= Distance(h, f.key)
    {
      var j :| 0 <= j < |ring| && ring[j] == f;
      assert j < LowerBound(ring, h) ==> ring[j].key < h;
    }
  }

  lemma NextUnique(ring: seq<Entry>, h: uint64, e: Entry, f: Entry)
    requires InOrder(ring) && IsNext(ring, h, e) && IsNext(ring, h, f)
    ensures e == f
  {
    var i :| 0 <= i < |ring| && ring[i] == e;
    var j :| 0 <= j < |ring| && ring[j] == f;
    assert e.key == f.key;
  }

  /** ring_[key] = node */
  function Put(ring: seq<Entry>, key: uint64, node: string): seq<Entry> {
    if ring == [] || key < ring[0].key then [Entry(key, node)] + ring
    else if key == ring[0].key then [Entry(key, node)] + ring[1..]
    else [ring[0]] + Put(ring[1..], key, node)
  }

  lemma FirstAndRest(ring: seq<Entry>)
    requires InOrder(ring) && ring != []
    ensures InOrder(ring[1..])
    ensures forall e :: Has(ring, e) <==> e == ring[0] || Has(ring[1..], e)
    ensures forall e :: Has(ring[1..], e) ==> e.key > ring[0].key
  {
    assert ring == [ring[0]] + ring[1..];
  }

  lemma {:induction false} PutEntries(ring: seq<Entry>, key: uint64, node: string)
    requires InOrder(ring)
    ensures InOrder(Put(ring, key, node))
    ensures forall e :: Has(Put(ring, key, node), e) <==> e == Entry(key, node) || (Has(ring, e) && e.key != key)
  {
    if ring == [] {
      InOrderCons(Entry(key, node), []);
      assert [Entry(key, node)] + [] == [Entry(key, node)];
    } else {
      FirstAndRest(ring);
      hide InOrder, Has;
      if key > ring[0].key {
        PutEntries(ring[1..], key, node);
        InOrderCons(ring[0], Put(ring[1..], key, node));
      } else if key == ring[0].key {
        InOrderCons(Entry(key, node), ring[1..]);
      } else {
        InOrderCons(Entry(key, node), ring);
      }
    }
  }

  lemma InOrderCons(first: Entry, rest: seq<Entry>)
    requires InOrder(rest) && forall e :: Has(rest, e) ==> first.key < e.key
    ensures InOrder([first] + rest)
    ensures forall e :: Has([first] + rest, e) <==> e == first || Has(rest, e)
  {
    forall j | 0 <= j < |rest|
      ensures first.key < rest[j].key
    {
      assert Has(rest, rest[j]);
    }
  }

  /** ring_.erase(key) */
  function Erase(ring: seq<Entry>, key: uint64): seq<Entry> {
    if ring == [] || key < ring[0].key then ring
    else if key == ring[0].key then ring[1..]
    else [ring[0]] + Erase(ring[1..], key)
  }

  lemma {:induction false} EraseEntries(ring: seq<Entry>, key: uint64)
    requires InOrder(ring)
    ensures InOrder(Erase(ring, key))
    ensures forall e :: Has(Erase(ring, key), e) <==> Has(ring, e) && e.key != key
  {
    if ring != [] {
      FirstAndRest(ring);
      hide InOrder, Has;
      if key > ring[0].key {
        EraseEntries(ring[1..], key);
        InOrderCons(ring[0], Erase(ring[1..], key));
      }
    }
  }

  /** The ring after the first n virtual nodes of x went in. */
  function PutAll(hash: string -> uint64, ring: seq<Entry>, x: string, n: nat): seq<Entry> {
    if n == 0 then ring else Put(PutAll(hash, ring, x, n - 1), Point(hash, x, n - 1), x)
  }

  function EraseAll(hash: string -> uint64, ring: seq<Entry>, x: string, n: nat): seq<Entry> {
    if n == 0 then ring else Erase(EraseAll(hash, ring, x, n - 1), Point(hash, x, n - 1))
  }

  /** key is one of the first n points of x. */
  ghost predicate PointOf(hash: string -> uint64, x: string, n: nat, key: uint64) {
    exists i: nat :: i < n && Point(hash, x, i) == key
  }

  lemma PointOfNext(hash: string -> uint64, x: string, n: nat, key: uint64)
    ensures PointOf(hash, x, n + 1, key) <==> PointOf(hash, x, n, key) || key == Point(hash, x, n)
  {
    if key == Point(hash, x, n) {
      assert n < n + 1 && Point(hash, x, n) == key;
    }
  }

  lemma {:induction false} PutAllEntries(hash: string -> uint64, ring: seq<Entry>, x: string, n: nat)
    requires InOrder(ring)
    ensures InOrder(PutAll(hash, ring, x, n))
    ensures forall e :: Has(PutAll(hash, ring, x, n), e) <==>
      if PointOf(hash, x, n, e.key) then e.node == x else Has(ring, e)
  {
    if n > 0 {
      var before := PutAll(hash, ring, x, n - 1);
      PutAllEntries(hash, ring, x, n - 1);
      PutEntries(before, Point(hash, x, n - 1), x);
      hide Put, PutAll, InOrder, Has, PointOf, Point;
      assert PutAll(hash, ring, x, n) == Put(before, Point(hash, x, n - 1), x) by { PutAllStep(hash, ring, x, n); }
      forall e: Entry
        ensures Has(PutAll(hash, ring, x, n), e) <==> if PointOf(hash, x, n, e.key) then e.node == x else Has(ring, e)
      {
        PointOfNext(hash, x, n - 1, e.key);
      }
    } else {
      assert forall key :: !PointOf(hash, x, 0, key);
    }
  }

  lemma PutAllStep(hash: string -> uint64, ring: seq<Entry>, x: string, n: nat)
    requires n > 0
    ensures PutAll(hash, ring, x, n) == Put(PutAll(hash, ring, x, n - 1), Point(hash, x, n - 1), x)
    ensures EraseAll(hash, ring, x, n) == Erase(EraseAll(hash, ring, x, n - 1), Point(hash, x, n - 1))
  {
  }

  lemma {:induction false} EraseAllEntries(hash: string -> uint64, ring: seq<Entry>, x: string, n: nat)
    requires InOrder(ring)
    ensures InOrder(EraseAll(hash, ring, x, n))
    ensures forall e :: Has(EraseAll(hash, ring, x, n), e) <==> Has(ring, e) && !PointOf(hash, x, n, e.key)
  {
    if n > 0 {
      var before := EraseAll(hash, ring, x, n - 1);
      EraseAllEntries(hash, ring, x, n - 1);
      EraseEntries(before, Point(hash, x, n - 1));
      PutAllStep(hash, ring, x, n);
      hide Erase, EraseAll, InOrder, Has, PointOf, Point;
      forall e: Entry
        ensures Has(EraseAll(hash, ring, x, n), e) <==> Has(ring, e) && !PointOf(hash, x, n, e.key)
      {
        PointOfNext(hash, x, n - 1, e.key);
      }
    } else {
      assert forall key :: !PointOf(hash, x, 0, key);
    }
  }

  // ------------------------------------------------------------ minimal remapping

  /** After adding x, a key is served by its old node or by x, whatever collides. */
  lemma AddRemapsOnlyTo(hash: string -> uint64, ring: seq<Entry>, x: string, n: nat, h: uint64, e: Entry, f: Entry)
    requires InOrder(ring) && IsNext(ring, h, e) && IsNext(PutAll(hash, ring, x, n), h, f)
    ensures f.node == x || f == e
  {
    PutAllEntries(hash, ring, x, n);
    hide Put, PutAll, Point;
    if f.node != x {
      assert Has(ring, f);
      if !Has(PutAll(hash, ring, x, n), e) {
        assert PointOf(hash, x, n, e.key);
        assert Has(PutAll(hash, ring, x, n), Entry(e.key, x));
      }
      SameDistance(h, e.key, f.key);
      NextUniqueKey(ring, e, f);
    }
  }

  lemma SameDistance(h: uint64, k: uint64, l: uint64)
    ensures Distance(h, k) == Distance(h, l) ==> k == l
  {
  }

  lemma NextUniqueKey(ring: seq<Entry>, e: Entry, f: Entry)
    requires InOrder(ring) && Has(ring, e) && Has(ring, f) && e.key == f.key
    ensures e == f
  {
    var i :| 0 <= i < |ring| && ring[i] == e;
    var j :| 0 <= j < |ring| && ring[j] == f;
  }

  /**
   * Removing x moves exactly the keys that one of the points of x served. When no point of x is a
   * point of another node those are the keys of x; otherwise a key of another node can move too.
   */
  lemma RemoveMovesOnlyItsPoints(hash: string -> uint64, ring: seq<Entry>, x: string, n: nat, h: uint64, e: Entry, f: Entry)
    requires InOrder(ring) && IsNext(ring, h, e) && IsNext(EraseAll(hash, ring, x, n), h, f)
    ensures f == e <==> !PointOf(hash, x, n, e.key)
  {
    EraseAllEntries(hash, ring, x, n);
    hide Erase, EraseAll, Point, PointOf;
    if !PointOf(hash, x, n, e.key) {
      assert Has(EraseAll(hash, ring, x, n), e) && Has(ring, f);
      SameDistance(h, e.key, f.key);
      NextUniqueKey(ring, e, f);
    }
  }

  /** Every point of x is on the ring, and is x's own. */
  ghost predicate HoldsAll(hash: string -> uint64, ring: seq<Entry>, x: string, n: nat) {
    forall key :: PointOf(hash, x, n, key) ==> Has(ring, Entry(key, x))
  }

  /** No point of x is a point of y. */
  ghost predicate Apart(hash: string -> uint64, x: string, y: string, n: nat) {
    forall key :: PointOf(hash, x, n, key) ==> !PointOf(hash, y, n, key)
  }

  /** What adding x leaves of the points of another node y: all of them exactly when the two are apart. */
  lemma AddHolds(hash: string -> uint64, ring: seq<Entry>, x: string, y: string, n: nat)
    requires InOrder(ring)
    ensures HoldsAll(hash, PutAll(hash, ring, x, n), x, n)
    ensures x != y ==>
      (HoldsAll(hash, PutAll(hash, ring, x, n), y, n) <==> HoldsAll(hash, ring, y, n) && Apart(hash, x, y, n))
  {
    hide Put, PutAll, PointOf, InOrder, Has;
    PutAllEntries(hash, ring, x, n);
    var after := PutAll(hash, ring, x, n);
    forall key: uint64
      ensures PointOf(hash, x, n, key) ==> Has(after, Entry(key, x))
      ensures x != y ==>
        (Has(after, Entry(key, y)) <==> Has(ring, Entry(key, y)) && !PointOf(hash, x, n, key))
    {
    }
  }

  /** What removing x leaves of the points of any node y. */
  lemma RemoveHolds(hash: string -> uint64, ring: seq<Entry>, x: string, y: string, n: nat)
    requires InOrder(ring)
    ensures HoldsAll(hash, EraseAll(hash, ring, x, n), y, n) <==> HoldsAll(hash, ring, y, n) && Apart(hash, x, y, n)
  {
    hide Erase, EraseAll, PointOf, InOrder, Has;
    EraseAllEntries(hash, ring, x, n);
    var after := EraseAll(hash, ring, x, n);
    forall key: uint64
      ensures Has(after, Entry(key, y)) <==> Has(ring, Entry(key, y)) && !PointOf(hash, x, n, key)
    {
    }
  }

  /** Two nodes that hold all their points share none. */
  lemma HoldersApart(hash: string -> uint64, ring: seq<Entry>, x: string, y: string, n: nat)
    requires InOrder(ring) && x != y && HoldsAll(hash, ring, x, n) && HoldsAll(hash, ring, y, n)
    ensures Apart(hash, x, y, n)
  {
    hide PointOf, InOrder, Has;
    forall key | PointOf(hash, x, n, key)
      ensures !PointOf(hash, y, n, key)
    {
      if PointOf(hash, y, n, key) {
        NextUniqueKey(ring, Entry(key, x), Entry(key, y));
      }
    }
  }

  /** One shared point is enough: adding b and removing it again takes exactly the shared points from a. */
  lemma SharedPointLost(hash: string -> uint64, ring: seq<Entry>, a: string, b: string, n: nat, key: uint64)
    requires InOrder(ring) && a != b && Has(ring, Entry(key, a))
    ensures Has(EraseAll(hash, PutAll(hash, ring, b, n), b, n), Entry(key, a)) <==> !PointOf(hash, b, n, key)
  {
    hide Put, PutAll, Erase, EraseAll, PointOf, InOrder, Has;
    PutAllEntries(hash, ring, b, n);
    EraseAllEntries(hash, PutAll(hash, ring, b, n), b, n);
  }

  /** Adding and removing b leaves a without any key exactly when every point of a is a point of b. */
  lemma CollisionTakesKeys(hash: string -> uint64, a: string, b: string, n: nat)
    ensures EraseAll(hash, PutAll(hash, PutAll(hash, [], a, n), b, n), b, n) == [] <==>
      forall key :: PointOf(hash, a, n, key) ==> PointOf(hash, b, n, key)
  {
    hide Put, PutAll, Erase, EraseAll, PointOf, Has;
    var first := PutAll(hash, [], a, n);
    var both := PutAll(hash, first, b, n);
    var left := EraseAll(hash, both, b, n);
    PutAllEntries(hash, [], a, n);
    PutAllEntries(hash, first, b, n);
    EraseAllEntries(hash, both, b, n);
    forall e: Entry
      ensures Has(left, e) <==> e.node == a && PointOf(hash, a, n, e.key) && !PointOf(hash, b, n, e.key)
    {
      NoEntries(e);
    }
    Entries(left);
    if forall key :: PointOf(hash, a, n, key) ==> PointOf(hash, b, n, key) {
      assert left != [] ==> Has(left, left[0]);
    } else {
      var key :| PointOf(hash, a, n, key) && !PointOf(hash, b, n, key);
      assert Has(left, Entry(key, a));
    }
  }

  lemma NoEntries(e: Entry)
    ensures !Has([], e)
  {
  }

  lemma Entries(ring: seq<Entry>)
    ensures ring == [] ==> forall e :: !Has(ring, e)
    ensures ring != [] ==> Has(ring, ring[0])
  {
  }

  // ------------------------------------------------------------ replica lists

  predicate NoRepeats(s: seq<string>) { forall i, j :: 0 <= i < j < |s| ==> s[i] != s[j] }

  lemma NothingRepeats()
    ensures NoRepeats([])
  {
  }

  /** First occurrences, in order. */
  function Distinct(s: seq<string>): seq<string> {
    if s == [] then []
    else
      var front, last := Distinct(s[..|s| - 1]), s[|s| - 1];
      if last in front then front else front + [last]
  }

  lemma {:induction false} DistinctMembers(s: seq<string>)
    ensures forall x :: x in Distinct(s) <==> x in s
    ensures NoRepeats(Distinct(s))
  {
    if s != [] {
      DistinctMembers(s[..|s| - 1]);
      assert s == s[..|s| - 1] + [s[|s| - 1]];
    }
  }

  lemma {:induction false} DistinctPrefix(s: seq<string>, k: nat)
    requires k <= |s|
    ensures Distinct(s[..k]) <= Distinct(s)
    decreases |s|
  {
    if k < |s| {
      DistinctPrefix(s[..|s| - 1], k);
      assert s[..|s| - 1][..k] == s[..k];
    } else {
      assert s[..k] == s;
    }
  }

  function Owners(entries: seq<Entry>): (s: seq<string>)
    ensures |s| == |entries| && forall i :: 0 <= i < |s| ==> s[i] == entries[i].node
  {
    seq(|entries|, i requires 0 <= i < |entries| => entries[i].node)
  }

  /** The owners met on one clockwise turn from index i. */
  function Turn(ring: seq<Entry>, i: nat): seq<string>
    requires i <= |ring|
  {
    Owners(ring[i..] + ring[..i])
  }

  /** Index i on a ring of n entries, for i below 2n. */
  function Wrap(i: nat, n: nat): int { if i < n then i else i - n }

  /** An iterator, possibly at the end, that stands for index i. */
  predicate At(it: nat, i: nat, n: nat) { (if it == n then 0 else it) == Wrap(i, n) }

  lemma AtStart(ring: seq<Entry>, h: uint64)
    requires ring != []
    ensures At(LowerBound(ring, h), NextIndex(ring, h), |ring|)
  {
  }

  lemma AtNext(it: nat, i: nat, n: nat)
    requires it <= n && 0 < n && i < 2 * n && At(it, i, n)
    ensures var at := if it == n then 0 else it; at == Wrap(i, n) && at < n && (i + 1 < 2 * n ==> At(at + 1, i + 1, n))
  {
  }

  lemma TurnAt(ring: seq<Entry>, start: nat, steps: nat)
    requires start < |ring| && steps < |ring|
    ensures |Turn(ring, start)| == |ring|
    ensures Turn(ring, start)[steps] == ring[Wrap(start + steps, |ring|)].node
    ensures Turn(ring, start)[0] == ring[start].node
  {
  }

  lemma DistinctNothing(s: seq<string>)
    ensures Distinct(s[..0]) == []
  {
  }

  lemma DistinctNext(s: seq<string>, k: nat)
    requires k < |s|
    ensures Distinct(s[..k + 1]) == if s[k] in Distinct(s[..k]) then Distinct(s[..k]) else Distinct(s[..k]) + [s[k]]
  {
    assert s[..k + 1][..k] == s[..k];
  }

  /** The walk starts at the owner of the key. */
  lemma DistinctFirst(s: seq<string>)
    requires s != []
    ensures Distinct(s) != [] && Distinct(s)[0] == s[0]
  {
    DistinctNothing(s);
    DistinctNext(s, 0);
    DistinctPrefix(s, 1);
  }

  /** Where the walk may stop: enough owners, a full turn, or every node found. */
  lemma WalkIsPrefix(turn: seq<string>, steps: nat, r: int, nodes: nat)
    requires steps <= |turn| && |Distinct(turn)| <= nodes
    requires |Distinct(turn[..steps])| <= r || |Distinct(turn[..steps])| == 0
    requires |Distinct(turn[..steps])| >= r || steps == |turn| || |Distinct(turn[..steps])| == nodes
    ensures NoRepeats(Distinct(turn[..steps])) && forall x :: x in Distinct(turn[..steps]) ==> x in Distinct(turn)
    ensures r <= 0 ==> Distinct(turn[..steps]) == []
    ensures r > 0 && turn != [] ==>
      && Distinct(turn[..steps]) == Distinct(turn)[..Min(r, |Distinct(turn)|)]
      && Distinct(turn[..steps]) != [] && Distinct(turn[..steps])[0] == turn[0]
      && (|Distinct(turn)| == nodes ==> |Distinct(turn[..steps])| == Min(r, nodes))
  {
    var found, all := Distinct(turn[..steps]), Distinct(turn);
    DistinctPrefix(turn, steps);
    DistinctMembers(turn[..steps]);
    if turn != [] {
      DistinctFirst(turn);
    }
    hide Distinct;
    assert forall x :: x in found ==> x in all;
    if steps == |turn| {
      assert turn[..steps] == turn;
    }
    if r > 0 {
      assert |found| == Min(r, |all|);
      assert found == all[..|found|];
    }
  }

  /** Two lists without repetition and with the same members have the same length. */
  lemma SameMembersSameLength(a: seq<string>, b: seq<string>)
    requires NoRepeats(a)
    requires NoRepeats(b)
    requires forall x :: x in a ==> x in b
    ensures |a| <= |b|
    ensures |a| == |b| <==> forall x :: x in b ==> x in a
  {
    DistinctSize(a);
    DistinctSize(b);
    var sa, sb := set x | x in a, set x | x in b;
    assert sb == sa + (sb - sa);
    if forall x :: x in b ==> x in a {
      assert sa == sb;
    }
    if |a| == |b| {
      assert sb - sa == {};
      forall x | x in b
        ensures x in a
      {
        assert x in sb;
      }
    }
  }

  lemma {:induction false} DistinctSize(a: seq<string>)
    requires NoRepeats(a)
    ensures |set x | x in a| == |a|
  {
    if a != [] {
      var n := |a| - 1;
      DistinctSize(a[..n]);
      assert a == a[..n] + [a[n]];
      assert (set x | x in a) == (set x | x in a[..n]) + {a[n]};
    }
  }

  // ------------------------------------------------------------ the ring

  class ConsistentHashRing {
    const hash: string -> uint64
    const vnodes: nat
    var ring: seq<Entry>
    var nodes: seq<string>

    ghost predicate Valid()
      reads this
    {
      && vnodes >= 1
      && InOrder(ring)
      && NoRepeats(nodes)
      && (forall e :: Has(ring, e) ==> e.node in nodes && PointOf(hash, e.node, vnodes, e.key))
    }

    /** No virtual node was overwritten: every node of the ring holds all its points. */
    ghost predicate Complete()
      reads this
    {
      forall n :: n in nodes ==> HoldsAll(hash, ring, n, vnodes)
    }

    /** No point of x is a point of another node in `others`. */
    ghost predicate NoCollision(x: string, others: seq<string>) {
      forall n :: n in others && n != x ==> Apart(hash, x, n, vnodes)
    }

    constructor (hash: string -> uint64, vnodesPerNode: int)
      ensures Valid() && Complete() && nodes == [] && ring == []
      ensures this.hash == hash && vnodes == if vnodesPerNode > 0 then vnodesPerNode else 1
    {
      this.hash := hash;
      vnodes := if vnodesPerNode > 0 then vnodesPerNode else 1;
      ring, nodes := [], [];
    }

    method AddNode(x: string)
      requires Valid()
      modifies this
      ensures Valid()
      ensures x in old(nodes) ==> ring == old(ring) && nodes == old(nodes)
      ensures x !in old(nodes) ==> nodes == old(nodes) + [x] && ring == PutAll(hash, old(ring), x, vnodes)
      ensures x !in old(nodes) ==> (Complete() <==> old(Complete()) && NoCollision(x, old(nodes)))
    {
      if x in nodes {
        return;
      }
      ghost var ring0, nodes0 := ring, nodes;
      nodes := nodes + [x];
      for i := 0 to vnodes
        invariant nodes == nodes0 + [x]
        invariant ring == PutAll(hash, ring0, x, i)
      {
        ring := Put(ring, Point(hash, x, i), x);
      }
      PutAllEntries(hash, ring0, x, vnodes);
      hide Put, PutAll, Point, HoldsAll, Apart;
      forall y: string
        ensures HoldsAll(hash, ring, x, vnodes)
        ensures x != y ==>
          (HoldsAll(hash, ring, y, vnodes) <==> HoldsAll(hash, ring0, y, vnodes) && Apart(hash, x, y, vnodes))
      {
        AddHolds(hash, ring0, x, y, vnodes);
      }
    }

    method RemoveNode(x: string)
      requires Valid()
      modifies this
      ensures Valid()
      ensures nodes == Without(old(nodes), x) && ring == EraseAll(hash, old(ring), x, vnodes)
      ensures Complete() <==>
        && (forall n :: n in old(nodes) && n != x ==> HoldsAll(hash, old(ring), n, vnodes))
        && NoCollision(x, old(nodes))
    {
      ghost var ring0, nodes0 := ring, nodes;
      nodes := Without(nodes, x);
      for i := 0 to vnodes
        invariant nodes == Without(nodes0, x)
        invariant ring == EraseAll(hash, ring0, x, i)
      {
        ring := Erase(ring, Point(hash, x, i));
      }
      EraseAllEntries(hash, ring0, x, vnodes);
      hide Erase, EraseAll, Point, Without, HoldsAll, Apart;
      forall y: string
        ensures HoldsAll(hash, ring, y, vnodes) <==> HoldsAll(hash, ring0, y, vnodes) && Apart(hash, x, y, vnodes)
      {
        RemoveHolds(hash, ring0, x, y, vnodes);
      }
    }

    /** On a complete ring nodes never collide, so removing one of them keeps the ring complete. */
    lemma CompleteNeverCollides(x: string)
      requires Valid() && Complete() && x in nodes
      ensures NoCollision(x, nodes)
    {
      forall n | n in nodes && n != x
        ensures Apart(hash, x, n, vnodes)
      {
        HoldersApart(hash, ring, x, n, vnodes);
      }
    }

    /** Removing a node of a complete ring leaves every key of another node where it is. */
    lemma RemoveKeepsOthers(x: string, h: uint64, e: Entry, f: Entry)
      requires Valid() && (NoCollision(x, nodes) || (Complete() && x in nodes))
      requires IsNext(ring, h, e) && IsNext(EraseAll(hash, ring, x, vnodes), h, f) && e.node != x
      ensures f == e
    {
      hide PointOf, EraseAll;
      if Complete() && x in nodes {
        CompleteNeverCollides(x);
      }
      assert Has(ring, e);
      assert !PointOf(hash, x, vnodes, e.key);
      RemoveMovesOnlyItsPoints(hash, ring, x, vnodes, h, e, f);
    }

    /** Some virtual node of n is on the ring. */
    ghost predicate Present(n: string)
      reads this
    {
      exists e :: Has(ring, e) && e.node == n
    }

    method GetNode(key: string) returns (node: string)
      requires Valid()
      ensures ring == [] ==> node == ""
      ensures ring != [] ==> node == ring[NextIndex(ring, hash(key))].node
      ensures ring != [] ==> exists e :: IsNext(ring, hash(key), e) && node == e.node
    {
      if ring == [] {
        return "";
      }
      var it := LowerBound(ring, hash(key));
      if it == |ring| {
        it := 0;
      }
      NextIndexIsNext(ring, hash(key));
      node := ring[it].node;
    }

    /** The first r distinct owners met clockwise from the key, beginning with the key's own node. */
    method GetNodes(key: string, r: int) returns (out: seq<string>)
      requires Valid()
      ensures ring == [] || r <= 0 ==> out == []
      ensures ring != [] && r > 0 ==>
        var all := Distinct(Turn(ring, NextIndex(ring, hash(key))));
        out == all[..Min(r, |all|)] && out != [] && out[0] == ring[NextIndex(ring, hash(key))].node
      ensures NoRepeats(out) && forall n :: n in out ==> n in nodes
      ensures ring != [] && r > 0 && (forall n :: n in nodes ==> Present(n)) ==> |out| == Min(r, |nodes|)
    {
      hide *;
      out := [];
      if ring == [] {
        NothingRepeats();
        return;
      }
      ghost var start := NextIndex(ring, hash(key));
      ghost var turn := Turn(ring, start);
      OwnersAreNodes(start);
      TurnAt(ring, start, 0);
      DistinctNothing(turn);
      AtStart(ring, hash(key));
      var it: nat := LowerBound(ring, hash(key));
      var steps: nat := 0;
      while |out| < r && steps < |ring|
        invariant 0 <= steps <= |ring| == |turn|
        invariant it <= |ring| && At(it, start + steps, |ring|)
        invariant out == Distinct(turn[..steps])
        invariant |out| <= r || |out| == 0
      {
        AtNext(it, start + steps, |ring|);
        if it == |ring| {
          it := 0;
        }
        TurnAt(ring, start, steps);
        DistinctNext(turn, steps);
        if ring[it].node !in out {
          out := out + [ring[it].node];
        }
        it := it + 1;
        steps := steps + 1;
        if |out| == |nodes| {
          break;
        }
      }
      WalkIsPrefix(turn, steps, r, |nodes|);
    }

    lemma CompleteIsPresent()
      requires Valid() && Complete()
      ensures forall n :: n in nodes ==> Present(n)
    {
      forall n | n in nodes
        ensures Present(n)
      {
        assert PointOf(hash, n, vnodes, Point(hash, n, 0));
        assert Has(ring, Entry(Point(hash, n, 0), n));
      }
    }

    lemma NodesDistinct()
      requires Valid()
      ensures NoRepeats(nodes) && forall n :: Present(n) ==> n in nodes
    {
      forall n | Present(n)
        ensures n in nodes
      {
        var e :| Has(ring, e) && e.node == n;
      }
    }

    lemma TurnMeets(start: nat, n: string)
      requires start <= |ring|
      ensures n in Turn(ring, start) <==> Present(n)
    {
      var entries := ring[start..] + ring[..start];
      var turn := Turn(ring, start);
      if n in turn {
        var i :| 0 <= i < |turn| && turn[i] == n;
        assert Has(ring, entries[i]);
      }
      if Present(n) {
        var e :| Has(ring, e) && e.node == n;
        var i :| 0 <= i < |ring| && ring[i] == e;
        assert turn[if i >= start then i - start else i + |ring| - start] == n;
      }
    }

    /** One turn meets only nodes of the ring, and meets them all exactly when none has lost every point. */
    lemma OwnersAreNodes(start: nat)
      requires Valid() && start <= |ring|
      ensures var all := Distinct(Turn(ring, start));
        && NoRepeats(all) && |all| <= |nodes| && (forall n :: n in all ==> n in nodes)
        && (|all| == |nodes| <==> forall n :: n in nodes ==> Present(n))
    {
      hide *;
      var turn := Turn(ring, start);
      var all := Distinct(turn);
      DistinctMembers(turn);
      NodesDistinct();
      forall n: string
        ensures n in all <==> Present(n)
      {
        TurnMeets(start, n);
      }
      SameMembersSameLength(all, nodes);
    }
  }

  /** nodes_.erase(std::remove(...)) */
  function Without(nodes: seq<string>, x: string): (r: seq<string>)
    ensures forall n :: n in r <==> n in nodes && n != x
    ensures NoRepeats(nodes) ==> NoRepeats(r)
  {
    if nodes == [] then []
    else
      var front, last := Without(nodes[..|nodes| - 1], x), nodes[|nodes| - 1];
      assert nodes == nodes[..|nodes| - 1] + [last];
      assert NoRepeats(nodes) ==> last !in nodes[..|nodes| - 1];
      if last == x then front else front + [last]
  }
}
