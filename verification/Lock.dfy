/** The lease-based lock and the leader election built on it: src/advanced/distributed.cpp, lines 73-118. */
module Lock {
  import opened Machine

  // ------------------------------------------------------------ one call

  datatype Hold = Hold(owner: string, expires: uint64, token: uint64)

  datatype State = State(holds: map<string, Hold>, nextToken: uint64)

  datatype Call =
    | Acquire(resource: string, owner: string, now: uint64, ttl: uint64)
    | Renew(resource: string, owner: string, now: uint64, ttl: uint64)
    | Release(resource: string, owner: string)

  /** What a call leaves behind and returns; 0 is a refusal, 1 the `true` of renew and release. */
  datatype Outcome = Outcome(state: State, answer: uint64)

  function Initial(): State { State(map[], 1) }

  predicate Live(s: State, resource: string, now: uint64) {
    resource in s.holds && s.holds[resource].expires > now
  }

  predicate HeldBy(s: State, resource: string, owner: string) {
    resource in s.holds && s.holds[resource].owner == owner
  }

  /** uint64 addition. */
  function Wrapped(a: int, b: int): uint64
    requires 0 <= a && 0 <= b
  {
    (a + b) % TWO_64
  }

  function Apply(s: State, c: Call): Outcome {
    match c
    case Acquire(resource, owner, now, ttl) =>
      if Live(s, resource, now) && HeldBy(s, resource, owner) then
        var token := s.holds[resource].token;
        Outcome(s.(holds := s.holds[resource := Hold(owner, Wrapped(now, ttl), token)]), token)
      else if Live(s, resource, now) then Outcome(s, 0)
      else
        var token := s.nextToken;
        Outcome(State(s.holds[resource := Hold(owner, Wrapped(now, ttl), token)], Wrapped(token, 1)), token)
    case Renew(resource, owner, now, ttl) =>
      if Live(s, resource, now) && HeldBy(s, resource, owner) then
        Outcome(s.(holds := s.holds[resource := s.holds[resource].(expires := Wrapped(now, ttl))]), 1)
      else Outcome(s, 0)
    case Release(resource, owner) =>
      if HeldBy(s, resource, owner) then Outcome(s.(holds := s.holds - {resource}), 1) else Outcome(s, 0)
  }

  function HolderAt(s: State, resource: string, now: uint64): string {
    if Live(s, resource, now) then s.holds[resource].owner else ""
  }

  /**
   * A granted lease shuts other owners out for all of [now, now + ttl) exactly when the expiry does
   * not wrap around 2^64: a lease whose expiry wraps is dead from its first millisecond.
   */
  lemma LeaseExcludesIffNoWrap(s: State, resource: string, a: string, b: string, now: uint64, ttl: uint64, other: uint64)
    requires a != b && s.nextToken != 0 && Apply(s, Acquire(resource, a, now, ttl)).answer != 0
    requires Apply(s, Acquire(resource, a, now, ttl)).state.nextToken != 0
    ensures
      var after := Apply(s, Acquire(resource, a, now, ttl)).state;
      (forall t: uint64 :: now <= t && t as int < now as int + ttl as int
        ==> Apply(after, Acquire(resource, b, t, other)).answer == 0)
      <==> ttl == 0 || now as int + ttl as int < TWO_64
  {
    var after := Apply(s, Acquire(resource, a, now, ttl)).state;
    assert after.holds[resource] == Hold(a, Wrapped(now, ttl), after.holds[resource].token);
    if ttl != 0 && now as int + ttl as int >= TWO_64 {
      assert Wrapped(now, ttl) as int == now as int + ttl as int - TWO_64;
      assert Apply(after, Acquire(resource, b, now, other)).answer != 0;
    } else if ttl != 0 {
      assert Wrapped(now, ttl) as int == now as int + ttl as int;
    }
  }

  // ------------------------------------------------------------ runs

  /** The state after the first n calls. */
  function Run(calls: seq<Call>, n: nat): State
    requires n <= |calls|
  {
    if n == 0 then Initial() else Apply(Run(calls, n - 1), calls[n - 1]).state
  }

  /** What call i of the run returned. */
  function Answer(calls: seq<Call>, i: nat): uint64
    requires i < |calls|
  {
    Apply(Run(calls, i), calls[i]).answer
  }

  /** The run is too short to use up the 64-bit tokens. */
  predicate Bounded(calls: seq<Call>) { |calls| < TWO_64 - 1 }

  predicate TokensBelow(s: State, bound: int) {
    && 1 <= s.nextToken as int <= bound
    && forall r :: r in s.holds ==> 1 <= s.holds[r].token < s.nextToken
  }

  lemma TokensStep(s: State, c: Call, bound: int)
    requires TokensBelow(s, bound) && bound < TWO_64 - 1
    ensures TokensBelow(Apply(s, c).state, bound + 1)
    ensures Apply(s, c).state.nextToken >= s.nextToken
  {
  }

  lemma {:induction false} TokensPositive(calls: seq<Call>, n: nat)
    requires Bounded(calls) && n <= |calls|
    ensures TokensBelow(Run(calls, n), n + 1)
    decreases n
  {
    if n > 0 {
      TokensPositive(calls, n - 1);
      TokensStep(Run(calls, n - 1), calls[n - 1], n);
    }
  }

  // ------------------------------------------------------------ fencing

  predicate Granted(calls: seq<Call>, i: nat) {
    i < |calls| && calls[i].Acquire? && Answer(calls, i) != 0
  }

  predicate TokensUnique(s: State) {
    forall p, q :: p in s.holds && q in s.holds && s.holds[p].token == s.holds[q].token ==> p == q
  }

  /** What a state remembers of a grant with this token. */
  predicate Remembers(s: State, resource: string, owner: string, token: uint64) {
    && 1 <= token < s.nextToken
    && (forall r :: r in s.holds && s.holds[r].token == token ==> r == resource && s.holds[r].owner == owner)
    && (resource in s.holds ==> token <= s.holds[resource].token)
  }

  lemma RememberNew(s: State, c: Call, bound: int)
    requires TokensBelow(s, bound) && bound < TWO_64 - 1 && c.Acquire? && Apply(s, c).answer != 0
    requires TokensUnique(s)
    ensures Remembers(Apply(s, c).state, c.resource, c.owner, Apply(s, c).answer)
  {
  }

  lemma RememberStep(s: State, c: Call, bound: int, resource: string, owner: string, token: uint64)
    requires TokensBelow(s, bound) && bound < TWO_64 - 1 && Remembers(s, resource, owner, token)
    ensures Remembers(Apply(s, c).state, resource, owner, token)
    ensures c.Acquire? && Apply(s, c).answer != 0 ==>
      && (Apply(s, c).answer == token ==> c.resource == resource && c.owner == owner)
      && (c.resource == resource ==> token <= Apply(s, c).answer)
  {
  }

  lemma {:induction false} TokensDistinct(calls: seq<Call>, n: nat)
    requires Bounded(calls) && n <= |calls|
    ensures TokensUnique(Run(calls, n))
    decreases n
  {
    if n > 0 {
      TokensDistinct(calls, n - 1);
      TokensPositive(calls, n - 1);
      hide Apply, TokensUnique, TokensBelow;
      UniqueStep(Run(calls, n - 1), calls[n - 1], n);
    }
  }

  lemma UniqueStep(s: State, c: Call, bound: int)
    requires TokensBelow(s, bound) && bound < TWO_64 - 1 && TokensUnique(s)
    ensures TokensUnique(Apply(s, c).state)
  {
  }

  lemma {:induction false} Remembered(calls: seq<Call>, i: nat, n: nat)
    requires Bounded(calls) && i < n <= |calls| && Granted(calls, i)
    ensures Remembers(Run(calls, n), calls[i].resource, calls[i].owner, Answer(calls, i))
    decreases n
  {
    assert calls[i].Acquire? && Answer(calls, i) == Apply(Run(calls, i), calls[i]).answer != 0;
    assert n < TWO_64 - 1;
    hide *;
    TokensPositive(calls, n - 1);
    if i == n - 1 {
      TokensDistinct(calls, i);
      RememberNew(Run(calls, i), calls[i], n);
    } else {
      Remembered(calls, i, n - 1);
      RememberStep(Run(calls, n - 1), calls[n - 1], n, calls[i].resource, calls[i].owner, Answer(calls, i));
    }
  }

  /** In every run a token belongs to one resource and one owner, and the tokens of a resource never go down. */
  lemma TokensFence(calls: seq<Call>, i: nat, j: nat)
    requires Bounded(calls) && i < j && Granted(calls, i) && Granted(calls, j)
    ensures Answer(calls, i) == Answer(calls, j) ==>
      calls[i].resource == calls[j].resource && calls[i].owner == calls[j].owner
    ensures calls[i].resource == calls[j].resource ==> Answer(calls, i) <= Answer(calls, j)
    ensures calls[i].resource == calls[j].resource && calls[i].owner != calls[j].owner
      ==> Answer(calls, i) < Answer(calls, j)
  {
    Remembered(calls, i, j);
    TokensPositive(calls, j);
    RememberStep(Run(calls, j), calls[j], j + 1, calls[i].resource, calls[i].owner, Answer(calls, i));
  }

  /** Between two grants of one token nobody else was granted the resource. */
  lemma OneTokenOneTenure(calls: seq<Call>, i: nat, k: nat, j: nat)
    requires Bounded(calls) && i < k < j && Granted(calls, i) && Granted(calls, k) && Granted(calls, j)
    requires Answer(calls, i) == Answer(calls, j) && calls[k].resource == calls[i].resource
    ensures calls[k].owner == calls[i].owner && Answer(calls, k) == Answer(calls, i)
  {
    TokensFence(calls, i, k);
    TokensFence(calls, i, j);
    TokensFence(calls, k, j);
  }

  // ------------------------------------------------------------ mutual exclusion

  /** When the lease asked for by a call would end. */
  function Until(c: Call): int
    requires !c.Release?
  {
    c.now as int + c.ttl as int
  }

  predicate NoOverflow(calls: seq<Call>) { forall i :: 0 <= i < |calls| && !calls[i].Release? ==> Until(calls[i]) < TWO_64 }

  predicate InTime(calls: seq<Call>) {
    forall i, j :: 0 <= i < j < |calls| && !calls[i].Release? && !calls[j].Release? ==> calls[i].now <= calls[j].now
  }

  /** Call i succeeded for this resource: it granted, extended or gave up a lease. */
  predicate Touches(calls: seq<Call>, i: nat, resource: string) {
    i < |calls| && calls[i].resource == resource && Answer(calls, i) != 0
  }

  /** Call i gave or prolonged a lease of this owner. */
  predicate Extends(calls: seq<Call>, i: nat, resource: string, owner: string) {
    Touches(calls, i, resource) && !calls[i].Release? && calls[i].owner == owner
  }

  predicate Leased(s: State, resource: string, owner: string, until: int) {
    HeldBy(s, resource, owner) && s.holds[resource].expires as int == until
  }

  /** What one call does to the lease on a resource. */
  lemma LeaseStep(s: State, c: Call, bound: int, resource: string)
    requires TokensBelow(s, bound) && (!c.Release? ==> Until(c) < TWO_64)
    ensures c.resource != resource || Apply(s, c).answer == 0 ==>
      forall a, u :: Leased(Apply(s, c).state, resource, a, u) <==> Leased(s, resource, a, u)
    ensures c.resource == resource && Apply(s, c).answer != 0 ==>
      forall a, u :: Leased(Apply(s, c).state, resource, a, u) <==> !c.Release? && a == c.owner && u == Until(c)
  {
  }

  /** Among the first n calls, call i was the last to succeed on the resource, and gave the owner a lease. */
  predicate LastLease(calls: seq<Call>, n: nat, i: nat, resource: string, owner: string, until: int)
    requires n <= |calls|
  {
    && i < n && Extends(calls, i, resource, owner) && Until(calls[i]) == until
    && forall k :: i < k < n ==> !Touches(calls, k, resource)
  }

  ghost predicate HasLease(calls: seq<Call>, n: nat, resource: string, owner: string, until: int)
    requires n <= |calls|
  {
    exists i: nat :: LastLease(calls, n, i, resource, owner, until)
  }

  /**
   * The lock is its history: an owner has a lease until u exactly when its last success on the
   * resource asked for u and nothing has succeeded on the resource since.
   */
  lemma {:induction false} LeasedIff(calls: seq<Call>, n: nat, resource: string, owner: string, until: int)
    requires Bounded(calls) && NoOverflow(calls) && n <= |calls|
    ensures Leased(Run(calls, n), resource, owner, until) <==> HasLease(calls, n, resource, owner, until)
    decreases n
  {
    if n > 0 {
      LeasedIff(calls, n - 1, resource, owner, until);
      TokensPositive(calls, n - 1);
      LeaseStep(Run(calls, n - 1), calls[n - 1], n, resource);
      assert Touches(calls, n - 1, resource) <==> calls[n - 1].resource == resource && Answer(calls, n - 1) != 0;
      hide Run, Apply, HeldBy, Leased, TokensBelow, NoOverflow;
      LastLeaseNext(calls, n, resource, owner, until);
    }
  }

  lemma LastLeaseNext(calls: seq<Call>, n: nat, resource: string, owner: string, until: int)
    requires 0 < n <= |calls|
    ensures HasLease(calls, n, resource, owner, until) <==>
      if Touches(calls, n - 1, resource) then Extends(calls, n - 1, resource, owner) && Until(calls[n - 1]) == until
      else HasLease(calls, n - 1, resource, owner, until)
  {
    hide Answer, Until;
    if HasLease(calls, n, resource, owner, until) {
      var i: nat :| LastLease(calls, n, i, resource, owner, until);
      assert i < n - 1 ==> LastLease(calls, n - 1, i, resource, owner, until);
    }
    if Touches(calls, n - 1, resource) {
      if Extends(calls, n - 1, resource, owner) && Until(calls[n - 1]) == until {
        assert LastLease(calls, n, n - 1, resource, owner, until);
      }
    } else if HasLease(calls, n - 1, resource, owner, until) {
      var m := n - 1;
      var i: nat :| LastLease(calls, m, i, resource, owner, until);
      assert LastLease(calls, n, i, resource, owner, until);
    }
  }

  /** At time t the resource has a holder exactly when the last success on it was a lease that ends after t. */
  lemma HolderIff(calls: seq<Call>, n: nat, resource: string, owner: string, t: uint64)
    requires Bounded(calls) && NoOverflow(calls) && n <= |calls| && owner != ""
    ensures HolderAt(Run(calls, n), resource, t) == owner <==>
      exists u: int :: t < u && HasLease(calls, n, resource, owner, u)
  {
    var s := Run(calls, n);
    forall u: int
      ensures Leased(s, resource, owner, u) <==> HasLease(calls, n, resource, owner, u)
    {
      LeasedIff(calls, n, resource, owner, u);
    }
    hide HasLease, Run;
    if HolderAt(s, resource, t) == owner {
      assert Leased(s, resource, owner, s.holds[resource].expires);
    }
  }

  /** The owner neither prolongs its lease nor gives it up in calls i+1 to j-1. */
  predicate Quiet(calls: seq<Call>, i: nat, j: nat, resource: string, owner: string)
    requires j <= |calls|
  {
    forall k :: i < k < j ==> !Extends(calls, k, resource, owner) && calls[k] != Release(resource, owner)
  }

  /** Some call after i that carries a time comes no earlier than the end of the lease of call i. */
  predicate Passed(calls: seq<Call>, i: nat, n: nat)
    requires i < n <= |calls| && !calls[i].Release?
  {
    exists k :: i < k < n && !calls[k].Release? && calls[k].now as int >= Until(calls[i])
  }

  /** Until its lease has run out a quiet owner keeps it. */
  lemma {:induction false} LeaseKept(calls: seq<Call>, i: nat, n: nat, resource: string, owner: string)
    requires Bounded(calls) && NoOverflow(calls) && i < n <= |calls|
    requires Extends(calls, i, resource, owner) && Quiet(calls, i, n, resource, owner)
    ensures Passed(calls, i, n) || Leased(Run(calls, n), resource, owner, Until(calls[i]))
    decreases n
  {
    var before, c := Run(calls, n - 1), calls[n - 1];
    assert Touches(calls, n - 1, resource) <==> c.resource == resource && Apply(before, c).answer != 0;
    assert !c.Release? ==> Until(c) < TWO_64;
    assert i < n - 1 && Touches(calls, n - 1, resource) ==> c.owner != owner;
    assert i < n - 1 ==> Quiet(calls, i, n - 1, resource, owner);
    assert !calls[i].Release? && calls[i].owner == owner && Touches(calls, i, resource);
    hide Apply, Run, Answer, Touches, TokensBelow, Leased, NoOverflow, Extends, Bounded, Quiet, Until;
    TokensPositive(calls, n - 1);
    LeaseStep(before, c, n, resource);
    if i < n - 1 {
      LeaseKept(calls, i, n - 1, resource, owner);
      if Passed(calls, i, n - 1) {
        assert Passed(calls, i, n);
      } else if Touches(calls, n - 1, resource) {
        TakenOnlyExpired(before, c, n, resource, owner, Until(calls[i]));
        assert Passed(calls, i, n);
      }
    }
  }

  /** A success by anyone but the lease holder means that the lease has ended. */
  lemma TakenOnlyExpired(s: State, c: Call, bound: int, resource: string, owner: string, until: int)
    requires TokensBelow(s, bound) && Leased(s, resource, owner, until) && c.resource == resource
    requires Apply(s, c).answer != 0 && c.owner != owner
    ensures c.Acquire? && c.now as int >= until
  {
  }

  /**
   * Mutual exclusion, for every run whose times do not go back and whose expiries do not overflow:
   * once an owner has a lease, another owner is granted the resource only when that lease has run
   * out, unless the owner prolonged it or released it in between.
   */
  lemma MutualExclusion(calls: seq<Call>, i: nat, j: nat)
    requires Bounded(calls) && NoOverflow(calls) && InTime(calls) && i < j && Granted(calls, j)
    requires Extends(calls, i, calls[j].resource, calls[i].owner) && calls[j].owner != calls[i].owner
    requires Quiet(calls, i, j, calls[j].resource, calls[i].owner)
    ensures calls[j].now as int >= Until(calls[i])
  {
    LeaseKept(calls, i, j, calls[j].resource, calls[i].owner);
    TokensPositive(calls, j);
    if !Passed(calls, i, j) {
      TakenOnlyExpired(Run(calls, j), calls[j], j + 1, calls[j].resource, calls[i].owner, Until(calls[i]));
    }
  }

  // ------------------------------------------------------------ leader election

  const LEADER_KEY := "vgre/leader"

  datatype Move = Campaign(candidate: string, now: uint64) | Resign(candidate: string)

  /** The calls on the lock that a run of the election makes. */
  function LockCalls(moves: seq<Move>, lease: uint64): (calls: seq<Call>)
    ensures |calls| == |moves|
  {
    seq(|moves|, i requires 0 <= i < |moves| => LockCall(moves[i], lease))
  }

  function LockCall(move: Move, lease: uint64): Call {
    match move
    case Campaign(candidate, now) => Acquire(LEADER_KEY, candidate, now, lease)
    case Resign(candidate) => Release(LEADER_KEY, candidate)
  }

  predicate Won(moves: seq<Move>, lease: uint64, i: nat) {
    i < |moves| && moves[i].Campaign? && Answer(LockCalls(moves, lease), i) != 0
  }

  /**
   * Terms of different candidates never overlap: a campaign won after another candidate's win, with
   * no resignation of that candidate in between, comes at least one lease later.
   */
  lemma {:induction false} TermsNeverOverlap(moves: seq<Move>, lease: uint64, i: nat, j: nat)
    requires Bounded(LockCalls(moves, lease)) && NoOverflow(LockCalls(moves, lease)) && InTime(LockCalls(moves, lease))
    requires i < j && Won(moves, lease, i) && Won(moves, lease, j)
    requires moves[i].candidate != moves[j].candidate
    requires forall k :: i < k < j ==> moves[k] != Resign(moves[i].candidate)
    ensures moves[j].now as int >= moves[i].now as int + lease as int
    decreases j - i
  {
    var calls := LockCalls(moves, lease);
    var a := moves[i].candidate;
    if k :| i < k < j && Extends(calls, k, LEADER_KEY, a) {
      assert moves[k].Campaign? && moves[k].candidate == a;
      TermsNeverOverlap(moves, lease, k, j);
      assert calls[i].now <= calls[k].now;
    } else {
      assert Quiet(calls, i, j, LEADER_KEY, a);
      MutualExclusion(calls, i, j);
    }
  }

  // ------------------------------------------------------------ the objects

  class DistributedLock {
    var holds: map<string, Hold>
    var nextToken: uint64

    function Value(): State
      reads this
    {
      State(holds, nextToken)
    }

    constructor ()
      ensures Value() == Initial()
    {
      holds, nextToken := map[], 1;
    }

    method Acquire(resource: string, owner: string, now: uint64, ttl: uint64) returns (token: uint64)
      modifies this
      ensures Outcome(Value(), token) == Apply(old(Value()), Call.Acquire(resource, owner, now, ttl))
    {
      var free := resource !in holds || holds[resource].expires <= now || holds[resource].owner == owner;
      if !free {
        return 0;
      }
      if resource in holds && holds[resource].owner == owner && holds[resource].expires > now {
        token := holds[resource].token;
      } else {
        token := nextToken;
        nextToken := Wrapped(nextToken, 1);
      }
      holds := holds[resource := Hold(owner, Wrapped(now, ttl), token)];
    }

    method Renew(resource: string, owner: string, now: uint64, ttl: uint64) returns (ok: bool)
      modifies this
      ensures Outcome(Value(), if ok then 1 else 0) == Apply(old(Value()), Call.Renew(resource, owner, now, ttl))
    {
      if resource !in holds || holds[resource].owner != owner || holds[resource].expires <= now {
        return false;
      }
      holds := holds[resource := holds[resource].(expires := Wrapped(now, ttl))];
      return true;
    }

    method Release(resource: string, owner: string) returns (ok: bool)
      modifies this
      ensures Outcome(Value(), if ok then 1 else 0) == Apply(old(Value()), Call.Release(resource, owner))
    {
      if resource !in holds || holds[resource].owner != owner {
        return false;
      }
      holds := holds - {resource};
      return true;
    }

    method Holder(resource: string, now: uint64) returns (owner: string)
      ensures owner == HolderAt(Value(), resource, now)
    {
      if resource !in holds || holds[resource].expires <= now {
        return "";
      }
      return holds[resource].owner;
    }
  }

  class LeaderElection {
    const lease: uint64
    const lock: DistributedLock

    constructor (lease: uint64)
      ensures this.lease == lease && fresh(lock) && lock.Value() == Initial()
    {
      this.lease := lease;
      lock := new DistributedLock();
    }

    method Campaign(candidate: string, now: uint64) returns (won: bool)
      modifies lock
      ensures var out := Apply(old(lock.Value()), LockCall(Move.Campaign(candidate, now), lease));
        lock.Value() == out.state && won == (out.answer != 0)
    {
      var token := lock.Acquire(LEADER_KEY, candidate, now, lease);
      won := token != 0;
    }

    method Resign(candidate: string)
      modifies lock
      ensures lock.Value() == Apply(old(lock.Value()), LockCall(Move.Resign(candidate), lease)).state
    {
      var _ := lock.Release(LEADER_KEY, candidate);
    }

    method Leader(now: uint64) returns (candidate: string)
      ensures candidate == HolderAt(lock.Value(), LEADER_KEY, now)
    {
      candidate := lock.Holder(LEADER_KEY, now);
    }
  }
}
