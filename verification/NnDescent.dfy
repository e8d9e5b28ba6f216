/**
 Concurrent insertions of NN-descent into the pool of one node: every offer first
 tests the radius without the lock, then updates the pool under it.  A round is any
 interleaving of these two steps over all the offers.
 */
module NnDescents {
  import opened Wrappers
  import opened Sorting
  import opened KnnPools
  import opened GraphSearches

  /** What an offer still has to do. */
  datatype Phase = Waiting | Admitted | Done

  /** The pool without its spare slot; radius is None while it is still numeric_limits::max(). */
  datatype Nhood = Nhood(pool: seq<Neighbor>, radius: Option<real>)

  predicate TooFar(dist: real, radius: Option<real>) {
    radius.Some? && dist > radius.value
  }

  /** The update under the lock, for a pool of at most cap entries. */
  function LockedUpdate(s: Nhood, cap: nat, nn: Neighbor): Nhood
    requires |s.pool| <= cap && cap > 0
  {
    if exists i :: 0 <= i < |s.pool| && s.pool[i].dist == nn.dist && s.pool[i].id == nn.id then s
    else
      var t := Inserted(s.pool, nn);
      if |s.pool| < cap then Nhood(t, s.radius)
      else Nhood(t[..cap], Some(t[cap - 1].dist))
  }

  lemma {:induction false} LockedUpdateIs(s: Nhood, cap: nat, nn: Neighbor)
    requires |s.pool| <= cap && cap > 0 && |Inserted(s.pool, nn)| == |s.pool| + 1
    ensures LockedUpdate(s, cap, nn) ==
      if Holds(s.pool, nn) then s
      else if |s.pool| < cap then Nhood(Inserted(s.pool, nn), s.radius)
      else Nhood(Inserted(s.pool, nn)[..cap], Some(Inserted(s.pool, nn)[cap - 1].dist))
  {
  }

  /** The neighbourhood of a node as the threads share it. */
  class SharedNhood {
    var pool: array<Neighbor>
    var L: nat
    var radius: Option<real>

    ghost predicate Valid()
      reads this, pool
    {
      pool.Length >= 2 && L < pool.Length && Sorted(pool[..L])
    }

    ghost function Value(): Nhood
      requires Valid()
      reads this, pool
    {
      Nhood(pool[..L], radius)
    }

    /** The unlocked test. */
    method Admits(dist: real) returns (ok: bool)
      ensures ok == !TooFar(dist, radius)
    {
      ok := !(radius.Some? && dist > radius.value);
    }

    /** The locked part; the result tells a held neighbour apart by L + 1. */
    method Update(id: nat, dist: real) returns (l: nat)
      requires Valid()
      modifies this, pool
      ensures Valid() && pool == old(pool)
      ensures Value() == LockedUpdate(old(Value()), pool.Length - 1, Neighbor(id, dist, true))
      ensures l == old(L) + 1 <==> Holds(old(pool[..L]), Neighbor(id, dist, true))
    {
      ghost var s, nn := pool[..L], Neighbor(id, dist, true);
      InsertedAt(s, nn);
      InsertedSorted(s, nn);
      LockedUpdateIs(Value(), pool.Length - 1, nn);
      hide Inserted, Rank, Holds, LockedUpdate, Sorted;
      l := Place(Neighbor(id, dist, true));
      if l <= L {
        Grow(s, nn);
      }
    }

    /** The insertion, in front of the spare slot. */
    method Place(nn: Neighbor) returns (l: nat)
      requires L < pool.Length && Sorted(pool[..L])
      modifies pool
      ensures l == L + 1 <==> Holds(old(pool[..L]), nn)
      ensures l == L + 1 ==> pool[..L] == old(pool[..L])
      ensures l != L + 1 ==> l <= L && pool[..L + 1] == Inserted(old(pool[..L]), nn)
    {
      l := UpdateKnnList(pool, L, nn);
    }

    /** An insertion lengthens the list, or bounds the radius of a full one. */
    method Grow(ghost s: seq<Neighbor>, ghost nn: Neighbor)
      requires pool.Length >= 2 && |s| == L < pool.Length && |Inserted(s, nn)| == L + 1
      requires pool[..L + 1] == Inserted(s, nn) && Sorted(Inserted(s, nn))
      modifies this`L, this`radius
      ensures Valid()
      ensures Value() == if |s| < pool.Length - 1 then Nhood(Inserted(s, nn), old(radius))
                         else Nhood(Inserted(s, nn)[..|s|], Some(Inserted(s, nn)[|s| - 1].dist))
    {
      assert pool[..L] == Inserted(s, nn)[..L];
      if L + 1 < pool.Length {
        L := L + 1;
      } else {
        radius := Some(pool[L - 1].dist);
      }
    }

    /** parallel_try_insert run without interruption. */
    method ParallelTryInsert(id: nat, dist: real) returns (l: nat)
      requires Valid()
      modifies this, pool
      ensures Valid() && pool == old(pool)
      ensures TooFar(dist, old(radius)) ==> l == pool.Length && Value() == old(Value())
      ensures !TooFar(dist, old(radius)) ==>
        Value() == LockedUpdate(old(Value()), pool.Length - 1, Neighbor(id, dist, true))
    {
      var ok := Admits(dist);
      if !ok {
        return pool.Length;
      }
      l := Update(id, dist);
    }
  }

  lemma {:induction false} InsertedSorted(s: seq<Neighbor>, nn: Neighbor)
    requires Sorted(s)
    ensures Sorted(Inserted(s, nn))
  {
    var p, t := Rank(s, nn.dist), Inserted(s, nn);
    InsertedAt(s, nn);
    RankPrefix(s, nn.dist);
    forall i, j | 0 <= i <= j < |t|
      ensures t[i].dist <= t[j].dist
    {
      assert i != p ==> t[i] == s[if i < p then i else i - 1];
      assert j != p ==> t[j] == s[if j < p then j else j - 1];
    }
  }

  /** A round in progress: the neighbourhood and the phase of every offer. */
  datatype Round = Round(nhood: Nhood, phases: seq<Phase>)

  /** What stays fixed during a round. */
  datatype Setting = Setting(offers: seq<nat>, d: nat -> real, cap: nat)

  /** One step of offer j: the test, the update, or nothing once it is done. */
  function Step(e: Setting, r: Round, j: nat): Round
    requires j < |e.offers| == |r.phases| && |r.nhood.pool| <= e.cap && e.cap > 0
  {
    var id := e.offers[j];
    match r.phases[j]
    case Waiting =>
      r.(phases := r.phases[j := if TooFar(e.d(id), r.nhood.radius) then Done else Admitted])
    case Admitted =>
      Round(LockedUpdate(r.nhood, e.cap, Neighbor(id, e.d(id), true)), r.phases[j := Done])
    case Done => r
  }

  lemma {:induction false} UpdateFits(s: Nhood, cap: nat, nn: Neighbor)
    requires |s.pool| <= cap && cap > 0
    ensures |LockedUpdate(s, cap, nn).pool| <= cap
  {
    InsertedAt(s.pool, nn);
  }

  /** The run of a schedule, which names the offer that moves at every step. */
  function Run(e: Setting, r: Round, schedule: seq<nat>): (r': Round)
    requires |e.offers| == |r.phases| && |r.nhood.pool| <= e.cap && e.cap > 0
    requires forall k :: 0 <= k < |schedule| ==> schedule[k] < |e.offers|
    ensures |r'.phases| == |e.offers| && |r'.nhood.pool| <= e.cap
  {
    if schedule == [] then r
    else
      var n := |schedule| - 1;
      var before := Run(e, r, schedule[..n]);
      UpdateFits(before.nhood, e.cap, Neighbor(e.offers[schedule[n]], e.d(e.offers[schedule[n]]), true));
      Step(e, before, schedule[n])
  }

  /** The ids a round has dealt with: those held at its start and those of finished offers. */
  ghost function Dealt(e: Setting, held: set<nat>, phases: seq<Phase>): set<nat>
    requires |phases| == |e.offers|
  {
    held + set j | 0 <= j < |phases| && phases[j].Done? :: e.offers[j]
  }

  /** A radius that has come down is one of a full pool, and not below its last entry. */
  ghost predicate RadiusOk(s: Nhood, cap: nat) {
    s.radius.Some? ==> cap > 0 && |s.pool| == cap && s.pool[cap - 1].dist <= s.radius.value
  }

  ghost predicate Sound(e: Setting, held: set<nat>, r: Round) {
    && |r.phases| == |e.offers| && e.cap > 0
    && Nearest(r.nhood.pool, Dealt(e, held, r.phases), e.d, e.cap)
    && RadiusOk(r.nhood, e.cap)
  }

  /** Rejecting or re-offering a node no nearer than the last of a full pool changes nothing. */
  lemma {:induction false} FartherSeen(s: seq<Neighbor>, seen: set<nat>, d: nat -> real, cap: nat, id: nat)
    requires Nearest(s, seen, d, cap) && cap > 0 && |s| == cap && s[cap - 1].dist <= d(id)
    ensures Nearest(s, seen + {id}, d, cap)
  {
    assert seen <= seen + {id};
    SubsetSize(seen, seen + {id});
  }

  lemma {:induction false} SubsetSize(a: set<nat>, b: set<nat>)
    requires a <= b
    ensures |a| <= |b|
  {
    assert b == a + (b - a);
  }

  /** A node that was dropped before goes behind the pool and is dropped again. */
  lemma {:induction false} DroppedAgain(pool: seq<Neighbor>, seen: set<nat>, d: nat -> real, cap: nat, nn: Neighbor)
    requires cap > 0 && Nearest(pool, seen, d, cap) && nn.dist == d(nn.id) && nn.id in seen && nn.id !in Ids(pool)
    ensures |pool| == cap && |Inserted(pool, nn)| == cap + 1 && Inserted(pool, nn)[..cap] == pool
    ensures pool[cap - 1].dist <= nn.dist && !Holds(pool, nn)
  {
    InsertedAt(pool, nn);
    if |pool| < cap {
      NothingDropped(pool, seen, d, cap);
    }
    assert pool[cap - 1].dist <= nn.dist;
    RankUnique(pool, nn.dist, cap);
  }

  /** The locked update keeps the pool nearest, whether the node is new, held, or was dropped before. */
  lemma {:induction false} UpdateSound(s: Nhood, seen: set<nat>, d: nat -> real, cap: nat, nn: Neighbor)
    requires cap > 0 && Nearest(s.pool, seen, d, cap) && RadiusOk(s, cap) && nn.dist == d(nn.id)
    ensures Nearest(LockedUpdate(s, cap, nn).pool, seen + {nn.id}, d, cap)
    ensures RadiusOk(LockedUpdate(s, cap, nn), cap)
  {
    var t := Inserted(s.pool, nn);
    InsertedAt(s.pool, nn);
    InsertedSorted(s.pool, nn);
    if nn.id in Ids(s.pool) {
      assert Holds(s.pool, nn);
      assert seen + {nn.id} == seen;
    } else if nn.id in seen {
      assert seen + {nn.id} == seen;
      DroppedAgain(s.pool, seen, d, cap, nn);
    } else {
      InsertNearest(s.pool, seen, d, cap, nn);
      assert t[..|t|] == t;
    }
  }

  lemma {:induction false} DealtGrows(e: Setting, held: set<nat>, phases: seq<Phase>, j: nat)
    requires |phases| == |e.offers| && j < |phases|
    ensures Dealt(e, held, phases[j := Done]) == Dealt(e, held, phases) + {e.offers[j]}
    ensures phases[j].Waiting? ==> Dealt(e, held, phases[j := Admitted]) == Dealt(e, held, phases)
  {
    var p := phases[j := Done];
    assert p[j].Done?;
    forall k | 0 <= k < |phases| && phases[k].Done?
      ensures e.offers[k] in Dealt(e, held, p)
    {
      assert p[k].Done?;
    }
    if phases[j].Waiting? {
      var q := phases[j := Admitted];
      forall k | 0 <= k < |phases| && phases[k].Done?
        ensures e.offers[k] in Dealt(e, held, q)
      {
        assert q[k].Done?;
      }
    }
  }

  /** Every step of every offer keeps the round sound. */
  lemma {:induction false} StepSound(e: Setting, held: set<nat>, r: Round, j: nat)
    requires Sound(e, held, r) && j < |e.offers|
    ensures Sound(e, held, Step(e, r, j))
  {
    var id := e.offers[j];
    DealtGrows(e, held, r.phases, j);
    var seen := Dealt(e, held, r.phases);
    match r.phases[j]
    case Waiting =>
      if TooFar(e.d(id), r.nhood.radius) {
        FartherSeen(r.nhood.pool, seen, e.d, e.cap, id);
      }
    case Admitted =>
      UpdateSound(r.nhood, seen, e.d, e.cap, Neighbor(id, e.d(id), true));
    case Done =>
  }

  lemma {:induction false} RunSound(e: Setting, held: set<nat>, r: Round, schedule: seq<nat>)
    requires Sound(e, held, r) && forall k :: 0 <= k < |schedule| ==> schedule[k] < |e.offers|
    ensures Sound(e, held, Run(e, r, schedule))
  {
    if schedule != [] {
      var n := |schedule| - 1;
      RunSound(e, held, r, schedule[..n]);
      StepSound(e, held, Run(e, r, schedule[..n]), schedule[n]);
    }
  }

  /** The start of a round: nothing tested yet, the pool sorted and without repeats. */
  ghost predicate RoundStart(e: Setting, r: Round) {
    && |r.phases| == |e.offers| && (forall j :: 0 <= j < |r.phases| ==> r.phases[j].Waiting?)
    && e.cap > 0 && |r.nhood.pool| <= e.cap
    && Sorted(r.nhood.pool) && DistinctIds(r.nhood.pool) && Measured(r.nhood.pool, e.d)
    && RadiusOk(r.nhood, e.cap)
  }

  ghost function Offered(e: Setting): set<nat> {
    set j | 0 <= j < |e.offers| :: e.offers[j]
  }

  /**
   Whatever the interleaving, a finished round leaves the pool with the cap
   nearest of all the nodes held or offered.
   */
  lemma {:induction false} RoundCorrect(e: Setting, r: Round, schedule: seq<nat>)
    requires RoundStart(e, r) && forall k :: 0 <= k < |schedule| ==> schedule[k] < |e.offers|
    requires forall j :: 0 <= j < |e.offers| ==> Run(e, r, schedule).phases[j].Done?
    ensures Nearest(Run(e, r, schedule).nhood.pool, Ids(r.nhood.pool) + Offered(e), e.d, e.cap)
  {
    var held := Ids(r.nhood.pool);
    IdsSize(r.nhood.pool);
    assert Dealt(e, held, r.phases) == held;
    RunSound(e, held, r, schedule);
    assert Dealt(e, held, Run(e, r, schedule).phases) == held + Offered(e);
  }

  /** The interleaving does not matter: two finished rounds hold the same distances. */
  lemma {:induction false} InterleavingIrrelevant(e: Setting, r: Round, a: seq<nat>, b: seq<nat>, i: nat)
    requires RoundStart(e, r)
    requires forall k :: 0 <= k < |a| ==> a[k] < |e.offers|
    requires forall k :: 0 <= k < |b| ==> b[k] < |e.offers|
    requires forall j :: 0 <= j < |e.offers| ==> Run(e, r, a).phases[j].Done? && Run(e, r, b).phases[j].Done?
    ensures |Run(e, r, a).nhood.pool| == |Run(e, r, b).nhood.pool|
    ensures i < |Run(e, r, a).nhood.pool| ==>
      Run(e, r, a).nhood.pool[i].dist == Run(e, r, b).nhood.pool[i].dist
  {
    RoundCorrect(e, r, a);
    RoundCorrect(e, r, b);
    if i < |Run(e, r, a).nhood.pool| {
      NearestUnique(Run(e, r, a).nhood.pool, Run(e, r, b).nhood.pool, Ids(r.nhood.pool) + Offered(e), e.d, e.cap, i);
    }
  }

  /** Within a round the radius never grows, which is why a stale reading is harmless. */
  lemma {:induction false} RadiusShrinks(e: Setting, held: set<nat>, r: Round, j: nat)
    requires Sound(e, held, r) && j < |e.offers| && r.nhood.radius.Some?
    ensures Step(e, r, j).nhood.radius.Some? && Step(e, r, j).nhood.radius.value <= r.nhood.radius.value
  {
    var nn := Neighbor(e.offers[j], e.d(e.offers[j]), true);
    InsertedAt(r.nhood.pool, nn);
    LockedUpdateIs(r.nhood, e.cap, nn);
    LastNoFarther(r.nhood.pool, nn);
    hide Nearest, Inserted, Holds, Dealt, LockedUpdate;
  }

  /** The last entry kept of a full pool is no farther than the last one before. */
  lemma {:induction false} LastNoFarther(s: seq<Neighbor>, nn: Neighbor)
    requires Sorted(s)
    ensures |Inserted(s, nn)| == |s| + 1
    ensures s != [] ==> Inserted(s, nn)[|s| - 1].dist <= s[|s| - 1].dist
  {
    InsertedAt(s, nn);
    var p, n := Rank(s, nn.dist), |s| - 1;
    if s != [] {
      assert p > n ==> Inserted(s, nn)[n] == s[n];
      assert p < n ==> Inserted(s, nn)[n] == s[n - 1] && s[n - 1].dist <= s[n].dist;
    }
  }

  /** The first S of S + 1 random nodes other than n itself. */
  method PickOthers(random: array<nat>, n: nat, S: nat, oracle: (nat, nat) -> real, pool: array<Neighbor>)
    requires random.Length == S + 1 && S <= pool.Length
    requires forall i, j :: 0 <= i < j <= S ==> random[i] != random[j]
    modifies pool
    ensures DistinctIds(pool[..S]) && Measured(pool[..S], (v: nat) => oracle(v, n))
    ensures forall l :: 0 <= l < S ==> pool[l].id in random[..] && pool[l].id != n
  {
    hide DistinctIds, Measured;
    var i, l := 0, 0;
    ghost var at: Option<nat> := None;
    while l < S
      invariant 0 <= l <= S && i == (if at.None? then l else l + 1)
      invariant at.Some? ==> at.value < i && random[at.value] == n
      invariant forall k :: 0 <= k < l ==> pool[k].id == random[Skipping(at, k)] != n
      invariant forall k :: 0 <= k < l ==> pool[k].dist == oracle(pool[k].id, n)
    {
      if random[i] == n {
        at := Some(i);
        i := i + 1;
      }
      pool[l] := pool[l].(id := random[i]);
      i := i + 1;
      pool[l] := pool[l].(dist := oracle(pool[l].id, n), flag := true);
      l := l + 1;
    }
    PickedAll(random[..], n, at, pool[..S], (v: nat) => oracle(v, n));
  }

  /** Taking every index but one gives different nodes. */
  lemma {:induction false} PickedAll(random: seq<nat>, n: nat, at: Option<nat>, pool: seq<Neighbor>, d: nat -> real)
    requires |random| == |pool| + 1 && forall i, j :: 0 <= i < j < |random| ==> random[i] != random[j]
    requires forall k :: 0 <= k < |pool| ==> pool[k].id == random[Skipping(at, k)] != n && pool[k].dist == d(pool[k].id)
    ensures DistinctIds(pool) && Measured(pool, d)
    ensures forall k :: 0 <= k < |pool| ==> pool[k].id in random && pool[k].id != n
  {
    forall j, k | 0 <= j < k < |pool|
      ensures pool[j].id != pool[k].id
    {
      assert Skipping(at, j) < Skipping(at, k);
    }
  }

  /** The k-th index after skipping one. */
  ghost function Skipping(at: Option<nat>, k: nat): nat {
    if at.Some? && k >= at.value then k + 1 else k
  }

  /**
   The pool init() gives a node: S distinct nodes below N, none of them the node
   itself, in order of distance, so that the first round starts well.
   */
  method InitPool(draws: seq<nat>, n: nat, S: nat, N: nat, oracle: (nat, nat) -> real, pool: array<Neighbor>)
    requires S + 1 < N && |draws| == S + 2 && S <= pool.Length - 1
    modifies pool
    ensures Sorted(pool[..S]) && DistinctIds(pool[..S]) && Measured(pool[..S], (v: nat) => oracle(v, n))
    ensures forall l :: 0 <= l < S ==> pool[l].id < N && pool[l].id != n
  {
    hide DistinctIds, Measured, Sorted, Sort;
    var random := new nat[S + 1];
    GenRandom(draws, random, S + 1, N);
    PickOthers(random, n, S, oracle, pool);
    ghost var d := (v: nat) => oracle(v, n);
    SortedPool(pool[..S], d);
    SortPool(pool, S);
  }

  /** std::sort on the first S slots. */
  method SortPool(pool: array<Neighbor>, S: nat)
    requires S <= pool.Length
    modifies pool
    ensures pool[..S] == Sort(old(pool[..S]), Closer)
  {
    CloserIsStrictWeak();
    SortCorrect(pool[..S], Closer);
    var sorted := Sort(pool[..S], Closer);
    forall l | 0 <= l < S {
      pool[l] := sorted[l];
    }
    assert pool[..S] == sorted;
  }

  /** Sorting a pool keeps its neighbours. */
  lemma {:induction false} SortedPool(pool: seq<Neighbor>, d: nat -> real)
    requires DistinctIds(pool) && Measured(pool, d)
    ensures var sorted := Sort(pool, Closer);
      && |sorted| == |pool| && Sorted(sorted) && DistinctIds(sorted) && Measured(sorted, d)
      && forall l :: 0 <= l < |sorted| ==> sorted[l] in pool
  {
    CloserIsStrictWeak();
    SortCorrect(pool, Closer);
    StartsNearest(pool, Sort(pool, Closer), Ids(pool), d, |pool|);
  }
}
