/**
 Best-first search over a neighbour graph: a sorted pool of the nearest visited
 nodes, expanded from its front with a cursor that backs up to new arrivals.
 */
module GraphSearches {
  import opened Wrappers
  import opened Sorting
  import opened KnnPools

  /** The draws, reduced, in ascending order. */
  ghost predicate SortedDraws(draws: seq<nat>, size: nat, bound: nat, s: seq<nat>)
    requires size <= |draws| && bound > 0
  {
    && |s| == size && (forall i, j :: 0 <= i < j < size ==> s[i] <= s[j])
    && multiset(s) == multiset(seq(size, i requires 0 <= i < size => draws[i] % bound))
  }

  /** b is s pushed apart: strictly ascending, and above a value of s only right behind the one before. */
  ghost predicate PushedApart(s: seq<nat>, b: seq<nat>) {
    && |b| == |s| && (forall i, j :: 0 <= i < j < |b| ==> b[i] < b[j])
    && forall i :: 0 <= i < |b| ==> b[i] >= s[i] && (b[i] == s[i] || (i > 0 && b[i] == b[i - 1] + 1))
  }

  /** The values these draws lead to: sorted, pushed apart and rotated. */
  ghost predicate RandomOf(draws: seq<nat>, size: nat, N: nat, random: seq<nat>)
    requires size < N && |draws| == size + 1
  {
    exists s, b :: SortedDraws(draws, size, N - size, s) && PushedApart(s, b) && |random| == size
      && forall i :: 0 <= i < size ==> random[i] == (b[i] + draws[size] % N) % N
  }

  /** The values pushed apart are the least of all strictly ascending ones that are not below s. */
  lemma {:induction false} PushedLeast(s: seq<nat>, b: seq<nat>, c: seq<nat>, i: nat)
    requires PushedApart(s, b) && |c| == |s| && forall j :: 0 <= j < |s| ==> s[j] <= c[j]
    requires i < |s| && forall j, k :: 0 <= j < k < |c| ==> c[j] < c[k]
    ensures b[i] <= c[i]
  {
    if i > 0 {
      PushedLeast(s, b, c, i - 1);
      assert c[i - 1] < c[i];
    }
    assert s[i] <= c[i];
    assert b[i] == s[i] || b[i] == b[i - 1] + 1;
  }

  lemma {:induction false} PushedNext(s: seq<nat>, b: seq<nat>, x: nat, y: nat)
    requires PushedApart(s, b) && y == if b != [] && x <= b[|b| - 1] then b[|b| - 1] + 1 else x
    ensures PushedApart(s + [x], b + [y])
  {
    var b' := b + [y];
    assert b'[|b|] == y && (b != [] ==> b'[|b| - 1] == b[|b| - 1]);
    assert forall i :: 0 <= i < |b| ==> b'[i] == b[i] <= b[|b| - 1];
  }

  /**
   size distinct values below N, whatever the generator draws: the sorted draws
   are pushed apart, then rotated.
   */
  method GenRandom(draws: seq<nat>, addr: array<nat>, size: nat, N: nat)
    requires size < N && |draws| == size + 1 && addr.Length >= size
    modifies addr
    ensures forall i :: 0 <= i < size ==> addr[i] < N
    ensures forall i, j :: 0 <= i < j < size ==> addr[i] != addr[j]
    ensures addr[size..] == old(addr[size..])
    ensures RandomOf(draws, size, N, addr[..size])
  {
    hide SortedDraws, PushedApart, RandomOf;
    DrawAll(draws, addr, size, N - size);
    SortPrefix(addr, size, N - size);
    ghost var s := addr[..size];
    DrawsSorted(draws, size, N - size, s);
    BumpApart(addr, size, N);
    ghost var b := addr[..size];
    Rotate(addr, size, N, draws[size] % N);
    Drawn(draws, size, N, s, b, addr[..size]);
  }

  lemma Drawn(draws: seq<nat>, size: nat, N: nat, s: seq<nat>, b: seq<nat>, random: seq<nat>)
    requires size < N && |draws| == size + 1 && |random| == |b| == size
    requires SortedDraws(draws, size, N - size, s) && PushedApart(s, b)
    requires forall i :: 0 <= i < size ==> random[i] == (b[i] + draws[size] % N) % N
    ensures RandomOf(draws, size, N, random)
  {
    hide SortedDraws, PushedApart;
  }

  lemma DrawsSorted(draws: seq<nat>, size: nat, bound: nat, s: seq<nat>)
    requires size <= |draws| && bound > 0 && |s| == size
    requires forall i, j :: 0 <= i < j < size ==> s[i] <= s[j]
    requires multiset(s) == multiset(seq(size, i requires 0 <= i < size => draws[i] % bound))
    ensures SortedDraws(draws, size, bound, s)
  {
  }

  method DrawAll(draws: seq<nat>, addr: array<nat>, size: nat, bound: nat)
    requires 0 < bound && size <= |draws| && size <= addr.Length
    modifies addr
    ensures forall j :: 0 <= j < size ==> addr[j] < bound
    ensures addr[..size] == seq(size, i requires 0 <= i < size => draws[i] % bound)
    ensures addr[size..] == old(addr[size..])
  {
    var i := 0;
    while i < size
      invariant 0 <= i <= size
      invariant forall j :: 0 <= j < i ==> addr[j] == draws[j] % bound
      invariant addr[size..] == old(addr[size..])
    {
      addr[i] := draws[i] % bound;
      i := i + 1;
    }
  }

  method SortPrefix(addr: array<nat>, size: nat, bound: nat)
    requires size <= addr.Length && forall j :: 0 <= j < size ==> addr[j] < bound
    modifies addr
    ensures forall j :: 0 <= j < size ==> addr[j] < bound
    ensures forall i, j :: 0 <= i < j < size ==> addr[i] <= addr[j]
    ensures multiset(addr[..size]) == old(multiset(addr[..size]))
    ensures addr[size..] == old(addr[size..])
  {
    var sorted := Sort(addr[..size], (a: nat, b: nat) => a < b);
    SortCorrect(addr[..size], (a: nat, b: nat) => a < b);
    assert forall j :: 0 <= j < size ==> sorted[j] in addr[..size];
    assert |sorted| == |multiset(sorted)| == size;
    forall j | 0 <= j < size {
      addr[j] := sorted[j];
    }
    assert addr[..size] == sorted;
  }

  method BumpApart(addr: array<nat>, size: nat, N: nat)
    requires size <= addr.Length && size < N && forall j :: 0 <= j < size ==> addr[j] < N - size
    modifies addr
    ensures forall j :: 0 <= j < size ==> addr[j] < N
    ensures forall i, j :: 0 <= i < j < size ==> addr[i] < addr[j]
    ensures PushedApart(old(addr[..size]), addr[..size])
    ensures addr[size..] == old(addr[size..])
  {
    ghost var s := addr[..size];
    var i := 1;
    OneApart(s);
    while i < size
      invariant 1 <= i && (i <= size || size == 0)
      invariant forall j :: 0 <= j < i && j < size ==> addr[j] < N - size + j
      invariant forall j :: i <= j < size ==> addr[j] == s[j]
      invariant i <= size ==> PushedApart(s[..i], addr[..i])
      invariant addr[size..] == old(addr[size..])
    {
      Push(addr, i, s);
      i := i + 1;
    }
    assert s[..size] == s;
  }

  lemma OneApart(s: seq<nat>)
    ensures s != [] ==> PushedApart(s[..1], s[..1])
  {
  }

  method Push(addr: array<nat>, i: nat, ghost s: seq<nat>)
    requires 0 < i < addr.Length && i < |s| && addr[i] == s[i] && PushedApart(s[..i], addr[..i])
    modifies addr
    ensures forall j :: 0 <= j < addr.Length && j != i ==> addr[j] == old(addr[j])
    ensures addr[i] == old(addr[i]) || addr[i] == addr[i - 1] + 1
    ensures PushedApart(s[..i + 1], addr[..i + 1])
  {
    ghost var b := addr[..i];
    ghost var y := if s[i] <= b[i - 1] then b[i - 1] + 1 else s[i];
    PushedNext(s[..i], b, s[i], y);
    if addr[i] <= addr[i - 1] {
      addr[i] := addr[i - 1] + 1;
    }
    assert s[..i + 1] == s[..i] + [s[i]] && addr[..i + 1] == b + [y];
  }

  method Rotate(addr: array<nat>, size: nat, N: nat, off: nat)
    requires size <= addr.Length && off < N && forall j :: 0 <= j < size ==> addr[j] < N
    requires forall i, j :: 0 <= i < j < size ==> addr[i] < addr[j]
    modifies addr
    ensures forall j :: 0 <= j < size ==> addr[j] < N
    ensures forall i, j :: 0 <= i < j < size ==> addr[i] != addr[j]
    ensures forall i :: 0 <= i < size ==> addr[i] == (old(addr[..size])[i] + off) % N
    ensures addr[size..] == old(addr[size..])
  {
    ghost var was := addr[..size];
    var i := 0;
    while i < size
      invariant 0 <= i <= size
      invariant forall j :: 0 <= j < i ==> addr[j] == Rotated(was[j], off, N) == (was[j] + off) % N
      invariant forall j :: i <= j < size ==> addr[j] == was[j]
      invariant addr[size..] == old(addr[size..])
    {
      addr[i] := (addr[i] + off) % N;
      RotatedIs(was[i], off, N);
      i := i + 1;
    }
  }

  function Rotated(x: nat, off: nat, N: nat): nat
    requires x < N && off < N
  {
    if x + off < N then x + off else x + off - N
  }

  lemma {:induction false} RotatedIs(x: nat, off: nat, N: nat)
    requires x < N && off < N
    ensures (x + off) % N == Rotated(x, off, N)
  {
    if x + off >= N {
      assert x + off == N + (x + off - N);
      assert (x + off) / N == 1;
    }
  }

  datatype SearchError = DatasetLargerThanIndex  // thrown when the graph has more nodes than the oracle

  /** The graph: for every node its neighbours, nearest first, and how many of them are used. */
  datatype Graph = Graph(neighbors: seq<seq<nat>>, M: seq<nat>, minM: nat)

  ghost predicate GoodGraph(g: Graph) {
    && |g.M| == |g.neighbors|
    && forall u, m :: 0 <= u < |g.neighbors| && 0 <= m < |g.neighbors[u]| ==> g.neighbors[u][m] < |g.neighbors|
  }

  /** How many neighbours of u an expansion looks at: as many as u uses, and at least minM, if there are. */
  function MaxM(g: Graph, u: nat): (maxM: nat)
    requires u < |g.M| == |g.neighbors|
    ensures maxM <= |g.neighbors[u]| && (maxM <= g.M[u] || maxM <= g.minM)
    ensures maxM < |g.neighbors[u]| ==> g.M[u] <= maxM && g.minM <= maxM
  {
    var maxM := if g.minM > g.M[u] then g.minM else g.M[u];
    if maxM > |g.neighbors[u]| then |g.neighbors[u]| else maxM
  }

  /** The neighbours of u that count: those it uses, and its first minM. */
  ghost function Considered(g: Graph, u: nat): set<nat>
    requires u < |g.M| == |g.neighbors|
  {
    set m | 0 <= m < |g.neighbors[u]| && (m < g.M[u] || m < g.minM) :: g.neighbors[u][m]
  }

  lemma ConsideredAre(g: Graph, u: nat)
    requires u < |g.M| == |g.neighbors|
    ensures Considered(g, u) == set m | 0 <= m < MaxM(g, u) :: g.neighbors[u][m]
  {
  }

  /** All the neighbours of u that count have been visited. */
  ghost predicate Expanded(g: Graph, u: nat, seen: set<nat>) {
    && u < |g.M| == |g.neighbors|
    && forall m :: 0 <= m < |g.neighbors[u]| && (m < g.M[u] || m < g.minM) ==> g.neighbors[u][m] in seen
  }

  ghost predicate Closed(g: Graph, c: set<nat>) {
    forall u :: u in c ==> Expanded(g, u, c)
  }

  /** Every visited node can be reached from the starting nodes. */
  ghost predicate OnlyReached(g: Graph, starts: set<nat>, seen: set<nat>) {
    forall c: set<nat> :: Closed(g, c) && starts <= c ==> seen <= c
  }

  /** The pool between two rounds of a trial; before holds the nodes visited in earlier trials. */
  ghost predicate Searching(g: Graph, d: nat -> real, cap: nat, starts: set<nat>, before: set<nat>, seen: set<nat>,
                            pool: seq<Neighbor>)
  {
    && GoodGraph(g) && Nearest(pool, seen - before, d, cap)
    && starts <= seen && before <= seen && OnlyReached(g, starts, seen)
    && (forall v :: v in seen ==> v < |g.neighbors|)
    && forall i :: 0 <= i < |pool| && !pool[i].flag ==> Expanded(g, pool[i].id, seen)
  }

  /** A trial that has run to its end. */
  ghost predicate Fixpoint(g: Graph, d: nat -> real, cap: nat, starts: set<nat>, before: set<nat>, seen: set<nat>,
                           pool: seq<Neighbor>)
  {
    && Nearest(pool, seen - before, d, cap)
    && starts <= seen && before <= seen && OnlyReached(g, starts, seen)
    && (forall v :: v in seen ==> v < |g.neighbors|)
    && forall i :: 0 <= i < |pool| ==> Expanded(g, pool[i].id, seen)
  }

  /**
   At the end of a trial every neighbour of a pool node is in the pool, was visited in an earlier trial,
   or is no nearer than the last entry of a full pool.
   */
  lemma {:induction false} NeighboursAccounted(g: Graph, d: nat -> real, cap: nat, starts: set<nat>, before: set<nat>,
                                               seen: set<nat>, pool: seq<Neighbor>, i: nat, m: nat)
    requires Fixpoint(g, d, cap, starts, before, seen, pool) && i < |pool| && pool[i].id < |g.neighbors| == |g.M|
    requires m < |g.neighbors[pool[i].id]| && (m < g.M[pool[i].id] || m < g.minM)
    ensures var v := g.neighbors[pool[i].id][m];
      v in Ids(pool) || v in before || (|pool| == cap && pool[cap - 1].dist <= d(v))
  {
    if |pool| < cap {
      NothingDropped(pool, seen - before, d, cap);
    }
  }

  /** What was visited, and the pool. */
  datatype Stage = Stage(seen: set<nat>, pool: seq<Neighbor>)

  /**
   One expansion: the nearest entry still flagged loses its flag, the neighbours of its node that count
   are visited, and the pool holds the nearest of this trial, entries that are new to it flagged.
   */
  ghost predicate Turn(g: Graph, d: nat -> real, cap: nat, before: set<nat>, a: Stage, b: Stage) {
    exists k ::
      && 0 <= k < |a.pool| && a.pool[k].flag && (forall i :: 0 <= i < k ==> !a.pool[i].flag)
      && a.pool[k].id < |g.M| == |g.neighbors| && b.seen == a.seen + Considered(g, a.pool[k].id)
      && Nearest(b.pool, b.seen - before, d, cap)
      && FlagsKept(a.pool[k := a.pool[k].(flag := false)], b.pool)
  }

  /** An entry of the new pool is the one its node had in the old pool, or it is new and flagged. */
  ghost predicate FlagsKept(was: seq<Neighbor>, now: seq<Neighbor>) {
    forall i :: 0 <= i < |now| ==> now[i] in was || (now[i].flag && now[i].id !in Ids(was))
  }

  /** One trial: its random picks, its run, what was visited at its end, and its pool. */
  datatype Trial = Trial(picks: set<nat>, run: seq<Stage>, seen: set<nat>, pool: seq<Neighbor>)

  /** From the picks not visited in earlier trials, all flagged, to a pool without flags, expansion by expansion. */
  ghost predicate BestFirst(g: Graph, d: nat -> real, cap: nat, before: set<nat>, t: Trial) {
    && Turns(g, d, cap, before, t.run) && t.run[|t.run| - 1] == Stage(t.seen, t.pool)
    && t.run[0].seen == before + t.picks && Nearest(t.run[0].pool, t.picks - before, d, cap)
    && (forall i :: 0 <= i < |t.run[0].pool| ==> t.run[0].pool[i].flag)
    && forall i :: 0 <= i < |t.pool| ==> !t.pool[i].flag
  }

  /** Every neighbour that counts, of every node in the pool, was visited by the end of the trial. */
  ghost predicate PoolExpanded(g: Graph, t: Trial) {
    forall i :: 0 <= i < |t.pool| ==>
      && t.pool[i].id < |g.M| == |g.neighbors|
      && forall m :: 0 <= m < |g.neighbors[t.pool[i].id]| && (m < g.M[t.pool[i].id] || m < g.minM) ==>
        g.neighbors[t.pool[i].id][m] in t.seen
  }

  /** The trials as they were run, each from the nodes its draws led to, in the order of best first. */
  ghost predicate RunAsDrawn(g: Graph, d: nat -> real, K: nat, P: nat, draws: seq<seq<nat>>, trials: seq<Trial>)
    requires P < |g.neighbors| && forall i :: 0 <= i < |draws| ==> |draws[i]| == P + 1
  {
    && |trials| <= |draws|
    && forall t :: 0 <= t < |trials| ==>
      && IsDrawn(draws[t], P, |g.neighbors|, trials[t].picks) && PoolExpanded(g, trials[t])
      && BestFirst(g, d, K + P, SeenIn(trials[..t]), trials[t])
  }

  lemma {:induction false} RunAsDrawnNext(g: Graph, d: nat -> real, K: nat, P: nat, draws: seq<seq<nat>>,
                                          trials: seq<Trial>, t: Trial)
    requires P < |g.neighbors| && forall i :: 0 <= i < |draws| ==> |draws[i]| == P + 1
    requires RunAsDrawn(g, d, K, P, draws, trials) && |trials| < |draws|
    requires IsDrawn(draws[|trials|], P, |g.neighbors|, t.picks) && PoolExpanded(g, t)
    requires BestFirst(g, d, K + P, SeenIn(trials), t)
    ensures RunAsDrawn(g, d, K, P, draws, trials + [t])
  {
    hide IsDrawn, PoolExpanded, BestFirst;
    var trials' := trials + [t];
    forall i | 0 <= i < |trials'|
      ensures IsDrawn(draws[i], P, |g.neighbors|, trials'[i].picks) && PoolExpanded(g, trials'[i])
      ensures BestFirst(g, d, K + P, SeenIn(trials'[..i]), trials'[i])
    {
      assert trials'[..i] == trials[..i] && (i < |trials| ==> trials'[i] == trials[i]);
      assert i == |trials| ==> trials[..i] == trials;
    }
  }

  lemma FixpointExpanded(g: Graph, d: nat -> real, cap: nat, starts: set<nat>, before: set<nat>, t: Trial)
    requires Fixpoint(g, d, cap, starts, before, t.seen, t.pool)
    ensures PoolExpanded(g, t)
  {
  }

  ghost predicate Turns(g: Graph, d: nat -> real, cap: nat, before: set<nat>, run: seq<Stage>) {
    run != [] && forall i :: 0 <= i < |run| - 1 ==> Turn(g, d, cap, before, run[i], run[i + 1])
  }

  lemma {:induction false} TurnsNext(g: Graph, d: nat -> real, cap: nat, before: set<nat>, run: seq<Stage>, b: Stage)
    requires Turns(g, d, cap, before, run) && Turn(g, d, cap, before, run[|run| - 1], b)
    ensures Turns(g, d, cap, before, run + [b]) && (run + [b])[0] == run[0]
  {
  }

  /** The nodes visited in these trials. */
  ghost function SeenIn(trials: seq<Trial>): set<nat> {
    if trials == [] then {} else trials[|trials| - 1].seen
  }

  ghost function Picked(trials: seq<Trial>): set<nat> {
    if trials == [] then {} else Picked(trials[..|trials| - 1]) + trials[|trials| - 1].picks
  }

  /** Trials one after the other, each with P picks and at its end at a fixpoint. */
  ghost predicate Trials(g: Graph, d: nat -> real, K: nat, P: nat, trials: seq<Trial>) {
    trials == [] ||
    var front, t := trials[..|trials| - 1], trials[|trials| - 1];
    && Trials(g, d, K, P, front) && |t.picks| == P && BestFirst(g, d, K + P, SeenIn(front), t)
    && Fixpoint(g, d, K + P, Picked(trials), SeenIn(front), t.seen, t.pool)
  }

  /** No trial has visited more new nodes than its pool holds. */
  ghost predicate NeverFull(trials: seq<Trial>, cap: nat) {
    trials == [] ||
    var front, t := trials[..|trials| - 1], trials[|trials| - 1];
    NeverFull(front, cap) && |t.seen - SeenIn(front)| <= cap
  }

  /**
   Pools that never overflowed make the search exact: it visited precisely the
   nodes reachable from its starts.
   */
  lemma {:induction false} ExactWhenNotFull(g: Graph, d: nat -> real, K: nat, P: nat, trials: seq<Trial>)
    requires Trials(g, d, K, P, trials) && NeverFull(trials, K + P)
    ensures Closed(g, SeenIn(trials)) && Picked(trials) <= SeenIn(trials)
    ensures forall c: set<nat> :: Closed(g, c) && Picked(trials) <= c ==> SeenIn(trials) <= c
  {
    if trials != [] {
      hide Fixpoint, Closed, BestFirst;
      var front, t := trials[..|trials| - 1], trials[|trials| - 1];
      ExactWhenNotFull(g, d, K, P, front);
      ClosedNext(g, d, K + P, Picked(trials), SeenIn(front), t.seen, t.pool);
    }
  }

  /** A trial whose pool did not overflow has expanded everything it visited. */
  lemma {:induction false} ClosedNext(g: Graph, d: nat -> real, cap: nat, starts: set<nat>, before: set<nat>,
                                      seen: set<nat>, pool: seq<Neighbor>)
    requires Fixpoint(g, d, cap, starts, before, seen, pool) && Closed(g, before) && |seen - before| <= cap
    ensures Closed(g, seen) && starts <= seen
    ensures forall c: set<nat> :: Closed(g, c) && starts <= c ==> seen <= c
  {
    NothingDropped(pool, seen - before, d, cap);
    forall u | u in seen
      ensures Expanded(g, u, seen)
    {
      if u in before {
        assert Expanded(g, u, before);
      } else {
        assert u in Ids(pool);
        var i :| 0 <= i < |pool| && pool[i].id == u;
      }
    }
  }

  ghost function Seen(flags: seq<bool>): set<nat> {
    set i: nat | i < |flags| && flags[i]
  }

  ghost function Unseen(flags: seq<bool>): set<nat> {
    set i: nat | i < |flags| && !flags[i]
  }

  /** What visiting nodes does to a pool: entries in front of nk stay, and new ones are flagged. */
  ghost predicate Grown(was: seq<Neighbor>, now: seq<Neighbor>, nk: nat) {
    && nk <= |was| && nk <= |now| && now[..nk] == was[..nk] && FlagsKept(was, now)
  }

  lemma {:induction false} GrownByOne(was: seq<Neighbor>, pool: seq<Neighbor>, nk: nat, nn: Neighbor, n: nat)
    requires Grown(was, pool, nk) && nn.flag && nn.id !in Ids(was) && n <= |pool| + 1 && |pool| <= n
    ensures var nk' := Min(nk, Rank(pool, nn.dist));
      Grown(was, Inserted(pool, nn)[..n], nk')
  {
    InsertedAt(pool, nn);
    var p, t := Rank(pool, nn.dist), Inserted(pool, nn);
    var nk' := Min(nk, p);
    assert t[..nk'] == pool[..nk'] == was[..nk'];
    assert t[..n][..nk'] == t[..nk'];
    forall i | 0 <= i < n
      ensures t[i] in was || (t[i].flag && t[i].id !in Ids(was))
    {
      assert i != p ==> t[i] == pool[if i < p then i else i - 1];
    }
  }

  lemma SeenMore(flags: seq<bool>, id: nat, before: set<nat>)
    requires id < |flags| && before <= Seen(flags) && !flags[id]
    ensures Seen(flags[id := true]) == Seen(flags) + {id} && id !in Seen(flags)
    ensures Seen(flags[id := true]) - before == (Seen(flags) - before) + {id}
  {
  }

  /** One unvisited neighbour is marked and put into the pool; the insertion never meets a duplicate. */
  method Visit(knn: array<Neighbor>, flags: array<bool>, L: nat, id: nat, oracle: nat -> real,
               ghost before: set<nat>)
    returns (L': nat, r: nat)
    requires knn.Length > 0 && L < knn.Length && id < flags.Length && !flags[id] && before <= Seen(flags[..])
    requires Nearest(knn[..L], Seen(flags[..]) - before, oracle, knn.Length - 1)
    modifies knn, flags
    ensures flags[..] == old(flags[..])[id := true] && Seen(flags[..]) == old(Seen(flags[..])) + {id}
    ensures r == Rank(old(knn[..L]), oracle(id)) <= L <= L' < knn.Length
    ensures L' == Min(knn.Length - 1, L + 1)
    ensures knn[..L'] == Inserted(old(knn[..L]), Neighbor(id, oracle(id), true))[..L']
    ensures Nearest(knn[..L'], Seen(flags[..]) - before, oracle, knn.Length - 1)
  {
    hide Nearest, Seen, Inserted, Rank, Holds, Sorted;
    NewInPool(knn[..L], flags[..], id, before, oracle, knn.Length - 1);
    Mark(flags, id);
    var dist := oracle(id);
    r, L' := InsertNew(knn, L, knn.Length - 1, Neighbor(id, dist, true));
  }

  method Mark(flags: array<bool>, id: nat)
    requires id < flags.Length
    modifies flags
    ensures flags[..] == old(flags[..])[id := true]
  {
    flags[id] := true;
  }

  /** What becomes of a pool when node id is visited. */
  lemma {:induction false} NewInPool(pool: seq<Neighbor>, flags: seq<bool>, id: nat, before: set<nat>, d: nat -> real,
                                     cap: nat)
    requires Nearest(pool, Seen(flags) - before, d, cap) && id < |flags| && !flags[id] && before <= Seen(flags)
    ensures Sorted(pool) && !Holds(pool, Neighbor(id, d(id), true)) && |pool| <= cap
    ensures Seen(flags[id := true]) == Seen(flags) + {id}
    ensures Nearest(Inserted(pool, Neighbor(id, d(id), true))[..Min(cap, |pool| + 1)], Seen(flags[id := true]) - before,
                    d, cap)
  {
    SeenMore(flags, id, before);
    InsertNearest(pool, Seen(flags) - before, d, cap, Neighbor(id, d(id), true));
  }

  /** One round of an expansion, at a neighbour not seen before. */
  method VisitNew(knn: array<Neighbor>, flags: array<bool>, L: nat, nk: nat, id: nat, oracle: nat -> real,
                  ghost before: set<nat>, ghost was: seq<Neighbor>)
    returns (L': nat, nk': nat)
    requires knn.Length > 0 && L < knn.Length && id < flags.Length && !flags[id] && before <= Seen(flags[..])
    requires Nearest(knn[..L], Seen(flags[..]) - before, oracle, knn.Length - 1) && Grown(was, knn[..L], nk)
    requires Ids(was) <= Seen(flags[..])
    modifies knn, flags
    ensures L' < knn.Length && Nearest(knn[..L'], Seen(flags[..]) - before, oracle, knn.Length - 1)
    ensures Grown(was, knn[..L'], nk') && flags[..] == old(flags[..])[id := true]
    ensures Seen(flags[..]) == old(Seen(flags[..])) + {id}
  {
    GrownByOne(was, knn[..L], nk, Neighbor(id, oracle(id), true), Min(knn.Length - 1, L + 1));
    var r: nat;
    L', r := Visit(knn, flags, L, id, oracle, before);
    nk' := if r < nk then r else nk;
  }

  lemma UnseenAfter(flags: seq<bool>, id: nat)
    requires id < |flags|
    ensures Unseen(flags[id := true]) == Unseen(flags) - {id}
    ensures flags[id] ==> Seen(flags) + {id} == Seen(flags) && Unseen(flags) - {id} == Unseen(flags)
    ensures !flags[id] ==> id in Unseen(flags)
  {
  }

  /** Node id is seen now; if it was before, nothing else has changed. */
  ghost predicate Noted(id: nat, flags0: seq<bool>, flags: seq<bool>, L: nat, L': nat, nk: nat, nk': nat,
                        knn0: seq<Neighbor>, knn: seq<Neighbor>)
  {
    && Seen(flags) == Seen(flags0) + {id} && Unseen(flags) == Unseen(flags0) - {id} && id < |flags0|
    && (flags0[id] ==> L' == L && nk' == nk && knn == knn0) && (!flags0[id] ==> id in Unseen(flags0))
  }

  /** One round of an expansion: a neighbour seen before is passed over. */
  method VisitNeighbour(knn: array<Neighbor>, flags: array<bool>, L: nat, nk: nat, id: nat, oracle: nat -> real,
                        ghost before: set<nat>, ghost was: seq<Neighbor>)
    returns (L': nat, nk': nat)
    requires knn.Length > 0 && L < knn.Length && id < flags.Length && before <= Seen(flags[..])
    requires Nearest(knn[..L], Seen(flags[..]) - before, oracle, knn.Length - 1) && Grown(was, knn[..L], nk)
    requires Ids(was) <= Seen(flags[..])
    modifies knn, flags
    ensures L' < knn.Length && Nearest(knn[..L'], Seen(flags[..]) - before, oracle, knn.Length - 1)
    ensures Grown(was, knn[..L'], nk')
    ensures Noted(id, old(flags[..]), flags[..], L, L', nk, nk', old(knn[..]), knn[..])
  {
    UnseenAfter(flags[..], id);
    L', nk' := L, nk;
    if !flags[id] {
      L', nk' := VisitNew(knn, flags, L, nk, id, oracle, before, was);
    }
  }

  function FirstIds(neighbors: seq<nat>, n: nat): set<nat>
    requires n <= |neighbors|
  {
    if n == 0 then {} else FirstIds(neighbors, n - 1) + {neighbors[n - 1]}
  }

  lemma {:induction false} FirstIdsAre(neighbors: seq<nat>, n: nat)
    requires n <= |neighbors|
    ensures FirstIds(neighbors, n) == set m | 0 <= m < n :: neighbors[m]
  {
    if n > 0 {
      FirstIdsAre(neighbors, n - 1);
    }
  }

  lemma {:induction false} FirstIdsNext(seen: set<nat>, neighbors: seq<nat>, m: nat)
    requires m < |neighbors|
    ensures seen + FirstIds(neighbors, m) + {neighbors[m]} == seen + FirstIds(neighbors, m + 1)
  {
  }

  /** The expansion of one node: its unvisited neighbours are visited; nk is the foremost arrival. */
  method Expand(knn: array<Neighbor>, flags: array<bool>, L: nat, neighbors: seq<nat>, maxM: nat, oracle: nat -> real,
                ghost before: set<nat>)
    returns (L': nat, nk: nat)
    requires knn.Length > 0 && L < knn.Length && maxM <= |neighbors| && before <= Seen(flags[..])
    requires forall m :: 0 <= m < maxM ==> neighbors[m] < flags.Length
    requires Nearest(knn[..L], Seen(flags[..]) - before, oracle, knn.Length - 1)
    modifies knn, flags
    ensures L' < knn.Length && Nearest(knn[..L'], Seen(flags[..]) - before, oracle, knn.Length - 1)
    ensures Grown(old(knn[..L]), knn[..L'], nk)
    ensures Seen(flags[..]) == old(Seen(flags[..])) + set m | 0 <= m < maxM :: neighbors[m]
    ensures Unseen(flags[..]) <= old(Unseen(flags[..]))
    ensures Unseen(flags[..]) == old(Unseen(flags[..])) ==> L' == L && nk == L && knn[..] == old(knn[..])
  {
    FirstIdsAre(neighbors, maxM);
    L', nk := VisitAll(knn, flags, L, neighbors, maxM, oracle, before);
  }

  /** Visiting changed nothing, or there is a node less to visit. */
  ghost predicate Advanced(unseen0: set<nat>, unseen: set<nat>, L: nat, L': nat, nk: nat, knn0: seq<Neighbor>,
                           knn: seq<Neighbor>)
  {
    unseen <= unseen0 && (unseen == unseen0 ==> L' == L && nk == L && knn == knn0)
  }

  /** In the middle of an expansion that began with flags0, pool0 and knn0: these ids were visited. */
  ghost predicate Visiting(cap: nat, oracle: nat -> real, before: set<nat>, flags0: seq<bool>, pool0: seq<Neighbor>,
                           knn0: seq<Neighbor>, ids: set<nat>, flags: seq<bool>, pool: seq<Neighbor>,
                               knn: seq<Neighbor>, nk: nat)
  {
    && before <= Seen(flags) && Nearest(pool, Seen(flags) - before, oracle, cap) && Grown(pool0, pool, nk)
    && Seen(flags) == Seen(flags0) + ids && Ids(pool0) <= Seen(flags0)
    && Advanced(Unseen(flags0), Unseen(flags), |pool0|, |pool|, nk, knn0, knn)
  }

  lemma {:induction false} VisitingNext(cap: nat, oracle: nat -> real, before: set<nat>, flags0: seq<bool>,
                                        pool0: seq<Neighbor>,
                                        knn0: seq<Neighbor>, neighbors: seq<nat>, m: nat, flags1: seq<bool>,
                                        pool1: seq<Neighbor>, knn1: seq<Neighbor>, nk1: nat, flags2: seq<bool>,
                                        pool2: seq<Neighbor>, knn2: seq<Neighbor>, nk2: nat)
    requires m < |neighbors|
    requires Visiting(cap, oracle, before, flags0, pool0, knn0, FirstIds(neighbors, m), flags1, pool1, knn1, nk1)
    requires Nearest(pool2, Seen(flags2) - before, oracle, cap) && Grown(pool0, pool2, nk2)
    requires Noted(neighbors[m], flags1, flags2, |pool1|, |pool2|, nk1, nk2, knn1, knn2)
    ensures Visiting(cap, oracle, before, flags0, pool0, knn0, FirstIds(neighbors, m + 1), flags2, pool2, knn2, nk2)
  {
    hide Nearest, Grown, Seen, Unseen;
    FirstIdsNext(Seen(flags0), neighbors, m);
  }

  /** The loop over the neighbours of the node. */
  method VisitAll(knn: array<Neighbor>, flags: array<bool>, L: nat, neighbors: seq<nat>, maxM: nat,
                  oracle: nat -> real, ghost before: set<nat>)
    returns (L': nat, nk: nat)
    requires knn.Length > 0 && L < knn.Length && maxM <= |neighbors| && before <= Seen(flags[..])
    requires forall m :: 0 <= m < maxM ==> neighbors[m] < flags.Length
    requires Nearest(knn[..L], Seen(flags[..]) - before, oracle, knn.Length - 1)
    modifies knn, flags
    ensures L' < knn.Length
    ensures Visiting(knn.Length - 1, oracle, before, old(flags[..]), old(knn[..L]), old(knn[..]),
                     FirstIds(neighbors, maxM),
                     flags[..], knn[..L'], knn[..], nk)
  {
    hide Nearest, Grown, Seen, Unseen, FirstIds, Visiting;
    ghost var flags0, pool0, knn0, cap := flags[..], knn[..L], knn[..], knn.Length - 1;
    L', nk := L, L;
    VisitingStart(cap, oracle, before, flags0, pool0, knn0, neighbors);
    var m := 0;
    while m < maxM
      invariant 0 <= m <= maxM && L' < knn.Length
      invariant Visiting(cap, oracle, before, flags0, pool0, knn0, FirstIds(neighbors, m), flags[..], knn[..L'],
                         knn[..], nk)
    {
      L', nk := VisitStep(knn, flags, L', nk, neighbors, m, oracle, before, flags0, pool0, knn0);
      m := m + 1;
    }
  }

  method VisitStep(knn: array<Neighbor>, flags: array<bool>, L: nat, nk: nat, neighbors: seq<nat>, m: nat,
                   oracle: nat -> real, ghost before: set<nat>, ghost flags0: seq<bool>,
                   ghost pool0: seq<Neighbor>, ghost knn0: seq<Neighbor>)
    returns (L': nat, nk': nat)
    requires knn.Length > 0 && L < knn.Length && m < |neighbors| && neighbors[m] < flags.Length
    requires Visiting(knn.Length - 1, oracle, before, flags0, pool0, knn0, FirstIds(neighbors, m), flags[..], knn[..L],
                      knn[..], nk)
    modifies knn, flags
    ensures L' < knn.Length
    ensures Visiting(knn.Length - 1, oracle, before, flags0, pool0, knn0, FirstIds(neighbors, m + 1), flags[..],
                     knn[..L'],
                     knn[..], nk')
  {
    hide Nearest, Grown, Seen, Unseen, FirstIds, Visiting, Noted;
    ghost var flags1, pool1, knn1 := flags[..], knn[..L], knn[..];
    VisitingPool(knn.Length - 1, oracle, before, flags0, pool0, knn0, FirstIds(neighbors, m), flags1, pool1, knn1, nk);
    L', nk' := VisitNeighbour(knn, flags, L, nk, neighbors[m], oracle, before, pool0);
    VisitingNext(knn.Length - 1, oracle, before, flags0, pool0, knn0, neighbors, m, flags1, pool1, knn1, nk, flags[..],
                 knn[..L'],
                 knn[..], nk');
  }

  lemma {:induction false} VisitingStart(cap: nat, oracle: nat -> real, before: set<nat>, flags0: seq<bool>,
                                         pool0: seq<Neighbor>,
                                         knn0: seq<Neighbor>, neighbors: seq<nat>)
    requires before <= Seen(flags0) && Nearest(pool0, Seen(flags0) - before, oracle, cap)
    ensures Visiting(cap, oracle, before, flags0, pool0, knn0, FirstIds(neighbors, 0), flags0, pool0, knn0, |pool0|)
  {
  }

  lemma {:induction false} VisitingPool(cap: nat, oracle: nat -> real, before: set<nat>, flags0: seq<bool>,
                                        pool0: seq<Neighbor>,
                                        knn0: seq<Neighbor>, ids: set<nat>, flags: seq<bool>, pool: seq<Neighbor>,
                                        knn: seq<Neighbor>, nk: nat)
    requires Visiting(cap, oracle, before, flags0, pool0, knn0, ids, flags, pool, knn, nk)
    ensures before <= Seen(flags) && Nearest(pool, Seen(flags) - before, oracle, cap) && Grown(pool0, pool, nk)
    ensures Ids(pool0) <= Seen(flags)
  {
  }

  /** Clearing the flag of an entry, once its expansion has begun. */
  lemma {:induction false} UnflagNearest(pool: seq<Neighbor>, k: nat, seen: set<nat>, d: nat -> real, cap: nat)
    requires k < |pool| && Nearest(pool, seen, d, cap)
    ensures Nearest(pool[k := pool[k].(flag := false)], seen, d, cap)
  {
    var pool' := pool[k := pool[k].(flag := false)];
    assert forall i :: 0 <= i < |pool| ==> pool'[i].id == pool[i].id && pool'[i].dist == pool[i].dist;
    assert Ids(pool') == Ids(pool) by {
      forall i | 0 <= i < |pool|
        ensures pool[i].id in Ids(pool') && pool'[i].id in Ids(pool)
      {
        assert pool'[i].id == pool[i].id;
      }
    }
  }

  /** Neighbours of a reached node are reached. */
  lemma {:induction false} ReachedGrows(g: Graph, starts: set<nat>, seen: set<nat>, cur: nat, seen': set<nat>)
    requires OnlyReached(g, starts, seen) && cur in seen && cur < |g.M| == |g.neighbors|
    requires seen' == seen + Considered(g, cur)
    ensures OnlyReached(g, starts, seen')
  {
    forall c: set<nat> | Closed(g, c) && starts <= c
      ensures seen' <= c
    {
      assert seen <= c && Expanded(g, cur, c);
    }
  }

  /** One expansion of the entry k of the pool keeps the search on track. */
  lemma {:induction false} SearchStep(g: Graph, d: nat -> real, cap: nat, starts: set<nat>, before: set<nat>,
                                      seen: set<nat>, pool: seq<Neighbor>, k: nat, seen': set<nat>,
                                      pool': seq<Neighbor>, nk: nat)
    requires Searching(g, d, cap, starts, before, seen, pool) && k < |pool| && pool[k].id < |g.M| == |g.neighbors|
    requires seen' == seen + Considered(g, pool[k].id)
    requires Grown(pool[k := pool[k].(flag := false)], pool', nk)
    requires Nearest(pool', seen' - before, d, cap)
    ensures Searching(g, d, cap, starts, before, seen', pool')
  {
    var cur, was := pool[k].id, pool[k := pool[k].(flag := false)];
    assert cur in Ids(pool);
    ReachedGrows(g, starts, seen, cur, seen');
    forall i | 0 <= i < |pool'| && !pool'[i].flag
      ensures Expanded(g, pool'[i].id, seen')
    {
      var j :| 0 <= j < |was| && was[j] == pool'[i];
      if j != k {
        assert Expanded(g, pool[j].id, seen);
      }
    }
  }

  /** Every entry in front of k has been expanded. */
  ghost predicate FrontDone(pool: seq<Neighbor>, k: nat) {
    k <= |pool| && forall i :: 0 <= i < k ==> !pool[i].flag
  }

  lemma {:induction false} FrontStep(pool: seq<Neighbor>, k: nat, pool': seq<Neighbor>, nk: nat)
    requires FrontDone(pool, k) && k < |pool| && Grown(pool[k := pool[k].(flag := false)], pool', nk)
    ensures FrontDone(pool', if nk <= k then nk else k + 1)
  {
    var was := pool[k := pool[k].(flag := false)];
    forall i | 0 <= i < nk
      ensures pool'[i] == was[i]
    {
      assert pool'[..nk][i] == was[..nk][i];
    }
  }

  /** The loop of the search: it ends, and it ends at a fixpoint. */
  method SearchLoop(g: Graph, knn: array<Neighbor>, flags: array<bool>, L0: nat, oracle: nat -> real,
                    ghost starts: set<nat>, ghost before: set<nat>)
    returns (L: nat, ghost run: seq<Stage>)
    requires L0 < knn.Length && flags.Length == |g.neighbors|
    requires Searching(g, oracle, knn.Length - 1, starts, before, Seen(flags[..]), knn[..L0])
    modifies knn, flags
    ensures L < knn.Length && Fixpoint(g, oracle, knn.Length - 1, starts, before, Seen(flags[..]), knn[..L])
    ensures Turns(g, oracle, knn.Length - 1, before, run) && run[0] == Stage(old(Seen(flags[..])), old(knn[..L0]))
    ensures run[|run| - 1] == Stage(Seen(flags[..]), knn[..L]) && forall i :: 0 <= i < L ==> !knn[i].flag
  {
    hide Searching, Fixpoint, Turn;
    run := [Stage(Seen(flags[..]), knn[..L0])];
    L := L0;
    var k := 0;
    while k < L
      invariant 0 <= k <= L < knn.Length
      invariant Searching(g, oracle, knn.Length - 1, starts, before, Seen(flags[..]), knn[..L])
      invariant FrontDone(knn[..L], k)
      invariant Turns(g, oracle, knn.Length - 1, before, run) && run[0] == Stage(old(Seen(flags[..])), old(knn[..L0]))
      invariant run[|run| - 1] == Stage(Seen(flags[..]), knn[..L])
      decreases Unseen(flags[..]), L - k
    {
      if knn[k].flag {
        L, k, run := TakeTurn(g, knn, flags, L, k, oracle, starts, before, run);
      } else {
        k := k + 1;
      }
    }
    AllExpanded(g, oracle, knn.Length - 1, starts, before, Seen(flags[..]), knn[..L]);
  }

  /** With the cursor at the end every entry has been expanded. */
  lemma {:induction false} AllExpanded(g: Graph, d: nat -> real, cap: nat, starts: set<nat>, before: set<nat>,
                                       seen: set<nat>, pool: seq<Neighbor>)
    requires Searching(g, d, cap, starts, before, seen, pool) && FrontDone(pool, |pool|)
    ensures Fixpoint(g, d, cap, starts, before, seen, pool)
  {
  }

  /** A round, noted in the run. */
  method TakeTurn(g: Graph, knn: array<Neighbor>, flags: array<bool>, L: nat, k: nat, oracle: nat -> real,
                  ghost starts: set<nat>, ghost before: set<nat>, ghost run: seq<Stage>)
    returns (L': nat, k': nat, ghost run': seq<Stage>)
    requires k < L < knn.Length && flags.Length == |g.neighbors| && knn[k].flag
    requires Searching(g, oracle, knn.Length - 1, starts, before, Seen(flags[..]), knn[..L]) && FrontDone(knn[..L], k)
    requires Turns(g, oracle, knn.Length - 1, before, run) && run[|run| - 1] == Stage(Seen(flags[..]), knn[..L])
    modifies knn, flags
    ensures k' <= L' < knn.Length
    ensures Searching(g, oracle, knn.Length - 1, starts, before, Seen(flags[..]), knn[..L']) && FrontDone(knn[..L'], k')
    ensures Unseen(flags[..]) < old(Unseen(flags[..]))
         || (Unseen(flags[..]) == old(Unseen(flags[..])) && L' == L && k' == k + 1)
    ensures Turns(g, oracle, knn.Length - 1, before, run') && run'[0] == run[0]
    ensures run'[|run'| - 1] == Stage(Seen(flags[..]), knn[..L'])
  {
    hide Searching, Turns, Turn, Seen, Unseen, FrontDone;
    L', k' := Round(g, knn, flags, L, k, oracle, starts, before);
    TurnsNext(g, oracle, knn.Length - 1, before, run, Stage(Seen(flags[..]), knn[..L']));
    run' := run + [Stage(Seen(flags[..]), knn[..L'])];
  }

  /** A round at a flagged entry: expand it and move the cursor. */
  method Round(g: Graph, knn: array<Neighbor>, flags: array<bool>, L: nat, k: nat, oracle: nat -> real,
               ghost starts: set<nat>, ghost before: set<nat>)
    returns (L': nat, k': nat)
    requires k < L < knn.Length && flags.Length == |g.neighbors| && knn[k].flag
    requires Searching(g, oracle, knn.Length - 1, starts, before, Seen(flags[..]), knn[..L]) && FrontDone(knn[..L], k)
    modifies knn, flags
    ensures k' <= L' < knn.Length
    ensures Searching(g, oracle, knn.Length - 1, starts, before, Seen(flags[..]), knn[..L']) && FrontDone(knn[..L'], k')
    ensures Unseen(flags[..]) < old(Unseen(flags[..]))
         || (Unseen(flags[..]) == old(Unseen(flags[..])) && L' == L && k' == k + 1)
    ensures Turn(g, oracle, knn.Length - 1, before, Stage(old(Seen(flags[..])), old(knn[..L])),
                 Stage(Seen(flags[..]), knn[..L']))
  {
    hide Nearest, Seen, Unseen, Grown, Searching, FrontDone, MaxM, Considered, Turn;
    ghost var pool, seen := knn[..L], Seen(flags[..]);
    RoundStarts(g, oracle, knn.Length - 1, starts, before, seen, pool, k);
    Unflag(knn, k);
    var cur := knn[k].id;
    assert knn[..L] == pool[k := pool[k].(flag := false)];
    var nk: nat;
    L', nk := Expand(knn, flags, L, g.neighbors[cur], MaxM(g, cur), oracle, before);
    ConsideredAre(g, cur);
    SearchStep(g, oracle, knn.Length - 1, starts, before, seen, pool, k, Seen(flags[..]), knn[..L'], nk);
    RoundIsTurn(g, oracle, knn.Length - 1, before, seen, pool, k, Seen(flags[..]), knn[..L'], nk);
    FrontStep(pool, k, knn[..L'], nk);
    k' := if nk <= k then nk else k + 1;
    FrontLength(knn[..L'], k');
  }

  lemma RoundIsTurn(g: Graph, d: nat -> real, cap: nat, before: set<nat>, seen: set<nat>, pool: seq<Neighbor>, k: nat,
                    seen': set<nat>, pool': seq<Neighbor>, nk: nat)
    requires k < |pool| && pool[k].flag && pool[k].id < |g.M| == |g.neighbors| && FrontDone(pool, k)
    requires seen' == seen + Considered(g, pool[k].id) && Nearest(pool', seen' - before, d, cap)
    requires Grown(pool[k := pool[k].(flag := false)], pool', nk)
    ensures Turn(g, d, cap, before, Stage(seen, pool), Stage(seen', pool'))
  {
    hide Nearest, Considered, FlagsKept;
  }

  method Unflag(knn: array<Neighbor>, k: nat)
    requires k < knn.Length
    modifies knn
    ensures knn[..] == old(knn[..])[k := old(knn[k]).(flag := false)]
  {
    knn[k] := knn[k].(flag := false);
  }

  lemma FrontLength(pool: seq<Neighbor>, k: nat)
    requires FrontDone(pool, k)
    ensures k <= |pool|
  {
  }

  lemma {:induction false} RoundStarts(g: Graph, d: nat -> real, cap: nat, starts: set<nat>, before: set<nat>,
                                       seen: set<nat>, pool: seq<Neighbor>, k: nat)
    requires Searching(g, d, cap, starts, before, seen, pool) && k < |pool|
    ensures Nearest(pool[k := pool[k].(flag := false)], seen - before, d, cap) && before <= seen
    ensures |g.M| == |g.neighbors| && pool[k].id < |g.neighbors| && MaxM(g, pool[k].id) <= |g.neighbors[pool[k].id]|
    ensures forall m :: 0 <= m < MaxM(g, pool[k].id) ==> g.neighbors[pool[k].id][m] < |g.neighbors|
  {
    UnflagNearest(pool, k, seen - before, d, cap);
    assert pool[k].id in Ids(pool);
  }

  lemma CloserIsStrictWeak()
    ensures StrictWeakOrder(Closer)
  {
  }

  /** Sorted start nodes are a pool of the nearest of themselves. */
  lemma {:induction false} StartsNearest(pool: seq<Neighbor>, sorted: seq<Neighbor>, starts: set<nat>, d: nat -> real,
                                         cap: nat)
    requires DistinctIds(pool) && Measured(pool, d) && Ids(pool) == starts && |pool| <= cap
    requires SortedBy(sorted, Closer) && multiset(sorted) == multiset(pool)
    ensures Nearest(sorted, starts, d, cap)
  {
    IdsSize(pool);
    assert |sorted| == |multiset(sorted)| == |pool|;
    forall x
      ensures x in sorted <==> x in pool
    {
      assert x in sorted <==> x in multiset(sorted);
      assert x in pool <==> x in multiset(pool);
    }
    assert forall i :: 0 <= i < |sorted| ==> sorted[i] in pool;
    assert forall i :: 0 <= i < |pool| ==> pool[i] in sorted;
    assert Ids(sorted) == Ids(pool);
    SameIdsDistinct(sorted, |starts|);
  }

  /** As many different ids as entries: no id twice. */
  lemma {:induction false} SameIdsDistinct(s: seq<Neighbor>, n: nat)
    requires |s| == n == |Ids(s)|
    ensures DistinctIds(s)
  {
    if s != [] {
      var m := |s| - 1;
      assert Ids(s) == Ids(s[..m]) + {s[m].id};
      IdsAtMost(s[..m]);
      SameIdsDistinct(s[..m], m);
      assert s[m].id !in Ids(s[..m]);
      assert forall i :: 0 <= i < m ==> s[..m][i].id in Ids(s[..m]);
    }
  }

  lemma {:induction false} IdsAtMost(s: seq<Neighbor>)
    ensures |Ids(s)| <= |s|
  {
    if s != [] {
      var m := |s| - 1;
      IdsAtMost(s[..m]);
      assert Ids(s) == Ids(s[..m]) + {s[m].id};
    }
  }

  /** The drawn nodes that were not visited in an earlier trial. */
  function Unvisited(random: seq<nat>, flags: seq<bool>): seq<nat>
    requires forall i :: 0 <= i < |random| ==> random[i] < |flags|
  {
    if random == [] then []
    else
      var n := |random| - 1;
      Unvisited(random[..n], flags) + if flags[random[n]] then [] else [random[n]]
  }

  lemma {:induction false} UnvisitedMembers(random: seq<nat>, flags: seq<bool>)
    requires forall i :: 0 <= i < |random| ==> random[i] < |flags|
    requires forall i, j :: 0 <= i < j < |random| ==> random[i] != random[j]
    ensures |Unvisited(random, flags)| <= |random|
    ensures forall v :: v in Unvisited(random, flags) <==> v in random && !flags[v]
    ensures forall i, j :: 0 <= i < j < |Unvisited(random, flags)| ==>
      Unvisited(random, flags)[i] != Unvisited(random, flags)[j]
  {
    if random != [] {
      var n := |random| - 1;
      var front := Unvisited(random[..n], flags);
      UnvisitedMembers(random[..n], flags);
      assert random == random[..n] + [random[n]];
      forall i | 0 <= i < |front|
        ensures front[i] != random[n]
      {
        assert front[i] in front && front[i] in random[..n];
      }
      assert Unvisited(random, flags) == if flags[random[n]] then front else front + [random[n]];
      hide Unvisited;
    }
  }

  lemma {:induction false} UnvisitedElements(random: seq<nat>, flags: seq<bool>)
    requires forall i :: 0 <= i < |random| ==> random[i] < |flags|
    requires forall i, j :: 0 <= i < j < |random| ==> random[i] != random[j]
    ensures var ids := Unvisited(random, flags);
      && |ids| <= |random| && Elements(ids) == Elements(random) - Seen(flags)
      && Seen(flags) + Elements(ids) == Seen(flags) + Elements(random)
      && (forall i :: 0 <= i < |ids| ==> ids[i] < |flags|)
      && forall i, j :: 0 <= i < j < |ids| ==> ids[i] != ids[j]
  {
    UnvisitedMembers(random, flags);
    var ids := Unvisited(random, flags);
    forall v
      ensures v in Elements(ids) <==> v in Elements(random) - Seen(flags)
    {
      assert v in Elements(ids) <==> v in ids;
      assert v in Elements(random) <==> v in random;
    }
    forall i | 0 <= i < |ids|
      ensures ids[i] < |flags|
    {
      assert ids[i] in ids;
    }
  }

  /** Start nodes these draws lead to. */
  ghost predicate IsDrawn(draws: seq<nat>, size: nat, N: nat, picks: set<nat>)
    requires size < N && |draws| == size + 1
  {
    exists random :: RandomOf(draws, size, N, random) && picks == Elements(random)
  }

  ghost function Elements(random: seq<nat>): set<nat> {
    set i | 0 <= i < |random| :: random[i]
  }

  lemma {:induction false} ElementsSize(random: seq<nat>)
    requires forall i, j :: 0 <= i < j < |random| ==> random[i] != random[j]
    ensures |Elements(random)| == |random|
  {
    if random != [] {
      var n := |random| - 1;
      ElementsSize(random[..n]);
      assert Elements(random) == Elements(random[..n]) + {random[n]};
    }
  }

  /** Random starting points: of P distinct nodes those not visited before, measured, marked and sorted. */
  method StartPool(draws: seq<nat>, P: nat, knn: array<Neighbor>, flags: array<bool>, oracle: nat -> real)
    returns (L: nat, ghost picks: set<nat>)
    requires P < flags.Length && P < knn.Length && |draws| == P + 1
    modifies knn, flags
    ensures L <= P && |picks| == P && Seen(flags[..]) == old(Seen(flags[..])) + picks
    ensures Nearest(knn[..L], picks - old(Seen(flags[..])), oracle, knn.Length - 1)
    ensures forall i :: 0 <= i < L ==> knn[i].flag
    ensures IsDrawn(draws, P, flags.Length, picks)
  {
    hide RandomOf;
    var random := new nat[P];
    GenRandom(draws, random, P, flags.Length);
    assert random[..P] == random[..];
    picks := Elements(random[..]);
    ElementsSize(random[..]);
    UnvisitedElements(random[..], flags[..]);
    ghost var fromNow := Unvisited(random[..], flags[..]);
    L := ListStarts(random, knn, flags);
    MarkStarts(knn, L, flags, oracle, fromNow);
    SortStarts(knn, L, oracle, Elements(fromNow));
  }

  method ListStarts(random: array<nat>, knn: array<Neighbor>, flags: array<bool>) returns (L: nat)
    requires random.Length < knn.Length && forall i :: 0 <= i < random.Length ==> random[i] < flags.Length
    modifies knn
    ensures L == |Unvisited(random[..], flags[..])| <= random.Length
    ensures forall i :: 0 <= i < L ==> knn[i].id == Unvisited(random[..], flags[..])[i]
  {
    L := 0;
    var m := 0;
    while m < random.Length
      invariant 0 <= m <= random.Length && L == |Unvisited(random[..m], flags[..])| <= m
      invariant forall i :: 0 <= i < L ==> knn[i].id == Unvisited(random[..m], flags[..])[i]
    {
      assert random[..m + 1][..m] == random[..m];
      if !flags[random[m]] {
        knn[L] := knn[L].(id := random[m]);
        L := L + 1;
      }
      m := m + 1;
    }
    assert random[..m] == random[..];
  }

  /** The listed nodes are marked and measured. */
  method MarkStarts(knn: array<Neighbor>, L: nat, flags: array<bool>, oracle: nat -> real, ghost ids: seq<nat>)
    requires L == |ids| < knn.Length && forall i :: 0 <= i < L ==> knn[i].id == ids[i] < flags.Length
    requires forall i, j :: 0 <= i < j < L ==> ids[i] != ids[j]
    modifies knn, flags
    ensures DistinctIds(knn[..L]) && Measured(knn[..L], oracle) && Ids(knn[..L]) == Elements(ids)
    ensures Seen(flags[..]) == old(Seen(flags[..])) + Elements(ids)
    ensures forall i :: 0 <= i < L ==> knn[i].flag
  {
    var k := 0;
    while k < L
      invariant 0 <= k <= L
      invariant forall i :: 0 <= i < L ==> knn[i].id == ids[i]
      invariant forall i :: 0 <= i < k ==> knn[i].dist == oracle(ids[i]) && knn[i].flag
      invariant forall v :: 0 <= v < flags.Length ==> (flags[v] <==> old(flags[v]) || v in ids[..k])
    {
      flags[knn[k].id] := true;
      knn[k] := knn[k].(flag := true, dist := oracle(knn[k].id));
      k := k + 1;
    }
    SameIds(knn[..L], ids);
  }

  lemma {:induction false} SameIds(s: seq<Neighbor>, ids: seq<nat>)
    requires |s| == |ids| && forall i :: 0 <= i < |s| ==> s[i].id == ids[i]
    ensures Ids(s) == Elements(ids)
  {
  }

  method SortStarts(knn: array<Neighbor>, P: nat, oracle: nat -> real, ghost starts: set<nat>)
    requires P < knn.Length && Ids(knn[..P]) == starts
    requires DistinctIds(knn[..P]) && Measured(knn[..P], oracle) && forall i :: 0 <= i < P ==> knn[i].flag
    modifies knn
    ensures Nearest(knn[..P], starts, oracle, knn.Length - 1)
    ensures forall i :: 0 <= i < P ==> knn[i].flag
  {
    hide Nearest, Sort, DistinctIds, Measured, Ids;
    SortedStarts(knn[..P], oracle, knn.Length - 1);
    var sorted := Sort(knn[..P], Closer);
    forall i | 0 <= i < P {
      knn[i] := sorted[i];
    }
    assert knn[..P] == sorted;
  }

  lemma {:induction false} SortedStarts(pool: seq<Neighbor>, oracle: nat -> real, cap: nat)
    requires DistinctIds(pool) && Measured(pool, oracle) && |pool| <= cap
    requires forall i :: 0 <= i < |pool| ==> pool[i].flag
    ensures |Sort(pool, Closer)| == |pool| && Nearest(Sort(pool, Closer), Ids(pool), oracle, cap)
    ensures forall i :: 0 <= i < |pool| ==> Sort(pool, Closer)[i].flag
  {
    CloserIsStrictWeak();
    SortCorrect(pool, Closer);
    StartsNearest(pool, Sort(pool, Closer), Ids(pool), oracle, cap);
    assert forall i :: 0 <= i < |pool| ==> Sort(pool, Closer)[i] in pool;
  }

  /** The start of a trial: the nodes visited before were reached already, the new starts are the pool. */
  lemma {:induction false} TrialStarts(g: Graph, d: nat -> real, cap: nat, starts: set<nat>, before: set<nat>,
                                       picks: set<nat>, pool: seq<Neighbor>)
    requires GoodGraph(g) && OnlyReached(g, starts, before) && starts <= before
    requires forall v :: v in before + picks ==> v < |g.neighbors|
    requires Nearest(pool, picks - before, d, cap) && forall i :: 0 <= i < |pool| ==> pool[i].flag
    ensures Searching(g, d, cap, starts + picks, before, before + picks, pool)
  {
    assert (before + picks) - before == picks - before;
  }

  /** The results, sorted, and how many there are; one slot is spare. */
  ghost predicate Merging(results: array<Neighbor>, n: nat, K: nat, seen: set<nat>, d: nat -> real)
    reads results
  {
    results.Length == K + 1 && n <= K && Nearest(results[..n], seen, d, K)
  }

  /** The first K entries of a pool. */
  ghost predicate FirstOf(s: seq<Neighbor>, pool: seq<Neighbor>, K: nat) {
    s == pool[..Min(K, |pool|)]
  }

  /** One trial: starts, search, and its first K entries join the results. */
  method RunTrial(g: Graph, knn: array<Neighbor>, flags: array<bool>, results: array<Neighbor>, n: nat, K: nat, P: nat,
                  oracle: nat -> real, draws: seq<seq<nat>>, trial: nat, ghost trials: seq<Trial>)
    returns (n': nat, ghost trials': seq<Trial>)
    requires GoodGraph(g) && P < |g.neighbors| == flags.Length && knn.Length == K + P + 1
    requires trial == |trials| < |draws| && forall i :: 0 <= i < |draws| ==> |draws[i]| == P + 1
    requires RunAsDrawn(g, oracle, K, P, draws, trials)
    requires knn != results && Trials(g, oracle, K, P, trials) && SeenIn(trials) == Seen(flags[..])
    requires Merging(results, n, K, SeenIn(trials), oracle)
    modifies knn, flags, results
    ensures Trials(g, oracle, K, P, trials') && SeenIn(trials') == Seen(flags[..])
    ensures |trials'| == |trials| + 1 && trials'[..|trials|] == trials
    ensures RunAsDrawn(g, oracle, K, P, draws, trials')
    ensures Merging(results, n', K, SeenIn(trials'), oracle)
    ensures trial == 0 ==> FirstOf(results[..n'], trials'[0].pool, K)
  {
    hide Trials, Fixpoint, Nearest, Picked, RunAsDrawn, BestFirst, IsDrawn, PoolExpanded, GoodGraph, Seen;
    var L: nat;
    ghost var t: Trial;
    L, t := VisitTrial(g, knn, flags, K, P, oracle, draws[trial], trials);
    trials' := trials + [t];
    TrialsNext(g, oracle, K, P, trials, t);
    FixpointExpanded(g, oracle, K + P, Picked(trials) + t.picks, SeenIn(trials), t);
    RunAsDrawnNext(g, oracle, K, P, draws, trials, t);
    if L > K {
      L := K;
    }
    n' := MergeResults(knn, L, results, n, K, oracle, trial == 0, SeenIn(trials), t.seen, t.pool);
  }

  /** The starts and the search of one trial. */
  method VisitTrial(g: Graph, knn: array<Neighbor>, flags: array<bool>, K: nat, P: nat, oracle: nat -> real,
                    draws: seq<nat>, ghost trials: seq<Trial>)
    returns (L: nat, ghost t: Trial)
    requires GoodGraph(g) && P < |g.neighbors| == flags.Length && knn.Length == K + P + 1 && |draws| == P + 1
    requires Trials(g, oracle, K, P, trials) && SeenIn(trials) == Seen(flags[..])
    modifies knn, flags
    ensures L < knn.Length && t.seen == Seen(flags[..]) && t.pool == knn[..L] && |t.picks| == P
    ensures Fixpoint(g, oracle, K + P, Picked(trials) + t.picks, SeenIn(trials), t.seen, t.pool)
    ensures BestFirst(g, oracle, K + P, SeenIn(trials), t) && IsDrawn(draws, P, |g.neighbors|, t.picks)
  {
    hide Trials, Fixpoint, Nearest, Searching, OnlyReached, Turns, IsDrawn;
    ghost var before, starts := Seen(flags[..]), Picked(trials);
    TrialsSound(g, oracle, K, P, trials);
    ghost var picks: set<nat>;
    L, picks := StartPool(draws, P, knn, flags, oracle);
    SeenBelow(flags[..]);
    TrialStarts(g, oracle, K + P, starts, before, picks, knn[..L]);
    ghost var run: seq<Stage>;
    L, run := SearchLoop(g, knn, flags, L, oracle, starts + picks, before);
    t := Trial(picks, run, Seen(flags[..]), knn[..L]);
  }

  lemma SeenBelow(flags: seq<bool>)
    ensures forall v :: v in Seen(flags) ==> v < |flags|
  {
  }

  lemma {:induction false} TrialsNext(g: Graph, d: nat -> real, K: nat, P: nat, trials: seq<Trial>, t: Trial)
    requires Trials(g, d, K, P, trials) && |t.picks| == P && BestFirst(g, d, K + P, SeenIn(trials), t)
    requires Fixpoint(g, d, K + P, Picked(trials) + t.picks, SeenIn(trials), t.seen, t.pool)
    ensures Trials(g, d, K, P, trials + [t]) && SeenIn(trials + [t]) == t.seen
    ensures SeenIn(trials) <= t.seen && Nearest(t.pool, t.seen - SeenIn(trials), d, K + P)
  {
    hide BestFirst, Nearest, OnlyReached, Expanded;
    assert (trials + [t])[..|trials|] == trials;
  }

  lemma {:induction false} TrialsSound(g: Graph, d: nat -> real, K: nat, P: nat, trials: seq<Trial>)
    requires Trials(g, d, K, P, trials)
    ensures Picked(trials) <= SeenIn(trials) && OnlyReached(g, Picked(trials), SeenIn(trials))
    ensures forall v :: v in SeenIn(trials) ==> v < |g.neighbors|
  {
  }

  /** The first trial's entries are copied, those of later ones inserted. */
  method MergeResults(knn: array<Neighbor>, L: nat, results: array<Neighbor>, n: nat, K: nat, oracle: nat -> real,
                      first: bool, ghost before: set<nat>, ghost seen: set<nat>, ghost pool: seq<Neighbor>)
    returns (n': nat)
    requires knn != results && 0 <= K < knn.Length && before <= seen
    requires Nearest(pool, seen - before, oracle, knn.Length - 1)
    requires L == Min(K, |pool|) && knn[..L] == pool[..L]
    requires Merging(results, n, K, before, oracle) && (first ==> before == {})
    modifies results
    ensures Merging(results, n', K, seen, oracle)
    ensures first ==> results[..n'] == pool[..L]
  {
    NearestPrefix(pool, seen - before, oracle, knn.Length - 1, K);
    assert Nearest(pool[..L], seen - before, oracle, K);
    hide Nearest;
    if first {
      n' := L;
      forall l | 0 <= l < L {
        results[l] := knn[l];
      }
      assert seen - before == seen;
      assert results[..n'] == pool[..L];
    } else {
      PoolIsNew(pool, before, seen, oracle, knn.Length - 1);
      n' := InsertResults(knn, L, results, n, K, oracle, before, pool);
      ResultsComplete(results[..n'], before, seen, oracle, K, pool[..L]);
    }
  }

  /** What a trial visited beyond its first K entries changes nothing. */
  lemma {:induction false} ResultsComplete(s: seq<Neighbor>, before: set<nat>, seen: set<nat>, d: nat -> real, K: nat,
                                           first: seq<Neighbor>)
    requires before <= seen && Nearest(first, seen - before, d, K) && Nearest(s, before + Ids(first), d, K)
    ensures Nearest(s, seen, d, K)
  {
    if |first| < K {
      NothingDropped(first, seen - before, d, K);
      assert before + Ids(first) == seen;
    } else {
      NearestExtended(s, before + Ids(first), seen, d, K, first);
    }
  }

  lemma {:induction false} PoolIsNew(pool: seq<Neighbor>, before: set<nat>, seen: set<nat>, d: nat -> real, cap: nat)
    requires Nearest(pool, seen - before, d, cap)
    ensures DistinctIds(pool) && Measured(pool, d) && Ids(pool) !! before
  {
  }

  method InsertResults(knn: array<Neighbor>, L: nat, results: array<Neighbor>, n: nat, K: nat, oracle: nat -> real,
                       ghost before: set<nat>, ghost pool: seq<Neighbor>)
    returns (n': nat)
    requires knn != results && L <= |pool| && L < knn.Length && knn[..L] == pool[..L]
    requires DistinctIds(pool) && Measured(pool, oracle) && Ids(pool) !! before
    requires Merging(results, n, K, before, oracle)
    modifies results
    ensures Merging(results, n', K, before + Ids(pool[..L]), oracle)
  {
    hide Nearest, DistinctIds, Measured, Ids;
    n' := n;
    var l := 0;
    NoIds(pool, before);
    while l < L
      invariant 0 <= l <= L && Merging(results, n', K, before + Ids(pool[..l]), oracle)
    {
      assert knn[l] == pool[l] by {
        assert knn[l] == knn[..L][l] == pool[..L][l];
      }
      n' := InsertResult(results, n', K, knn[l], oracle, before + Ids(pool[..l]), before, pool, l);
      l := l + 1;
    }
  }

  lemma NoIds(pool: seq<Neighbor>, before: set<nat>)
    ensures before + Ids(pool[..0]) == before
  {
  }

  /** One entry of a later trial; its node is new. */
  method InsertResult(results: array<Neighbor>, n: nat, K: nat, nn: Neighbor, oracle: nat -> real,
                      ghost seen: set<nat>, ghost before: set<nat>, ghost pool: seq<Neighbor>, ghost l: nat)
    returns (n': nat)
    requires l < |pool| && nn == pool[l] && seen == before + Ids(pool[..l])
    requires DistinctIds(pool) && Measured(pool, oracle) && Ids(pool) !! before
    requires Merging(results, n, K, seen, oracle)
    modifies results
    ensures Merging(results, n', K, before + Ids(pool[..l + 1]), oracle)
  {
    ghost var s := results[..n];
    NextId(pool, l, before);
    InsertNearest(s, seen, oracle, K, nn);
    assert Sorted(s);
    hide Nearest, Inserted, Rank, Holds, Sorted, DistinctIds, Measured;
    var _, m := InsertNew(results, n, K, nn);
    n' := m;
  }

  lemma {:induction false} NextId(pool: seq<Neighbor>, l: nat, before: set<nat>)
    requires l < |pool| && DistinctIds(pool) && Ids(pool) !! before
    ensures pool[l].id !in before + Ids(pool[..l])
    ensures before + Ids(pool[..l + 1]) == before + Ids(pool[..l]) + {pool[l].id}
  {
    assert pool[l].id in Ids(pool);
    assert pool[..l + 1] == pool[..l] + [pool[l]];
    assert pool[..l + 1][l].id in Ids(pool[..l + 1]);
    forall i | 0 <= i < l
      ensures pool[..l][i].id in Ids(pool[..l + 1])
    {
      assert pool[..l + 1][i] == pool[..l][i];
    }
  }

  /** The first K of a longer pool are the K nearest. */
  lemma {:induction false} NearestPrefix(s: seq<Neighbor>, seen: set<nat>, d: nat -> real, cap: nat, K: nat)
    requires Nearest(s, seen, d, cap) && K <= cap
    ensures Nearest(s[..Min(K, |s|)], seen, d, K)
  {
    var t := s[..Min(K, |s|)];
    PrefixKeeps(s, Min(K, |s|), d);
    forall v, i | v in seen && v !in Ids(t) && 0 <= i < |t|
      ensures t[i].dist <= d(v)
    {
      if v in Ids(s) {
        var j :| 0 <= j < |s| && s[j].id == v;
        assert s[i].dist <= s[j].dist;
      }
    }
  }

  /** Nodes no nearer than K others change nothing about the K nearest. */
  lemma {:induction false} NearestExtended(s: seq<Neighbor>, some: set<nat>, seen: set<nat>, d: nat -> real, K: nat,
                                           first: seq<Neighbor>)
    requires Nearest(s, some, d, K) && some <= seen
    requires DistinctIds(first) && Ids(first) <= some && Sorted(first) && Measured(first, d) && |first| <= K
    requires forall v :: v in seen && v !in some ==> |first| == K && forall i :: 0 <= i < |first| ==>
        first[i].dist <= d(v)
    ensures Nearest(s, seen, d, K)
  {
    if some != seen {
      var w :| w in seen && w !in some;
      IdsSize(first);
      SubsetSize(Ids(first), some);
      SubsetSize(some, seen);
      forall v, i | v in seen && v !in some && 0 <= i < |s|
        ensures s[i].dist <= d(v)
      {
        AboveK(s, some, d, K, first, v, i);
      }
    }
  }

  lemma {:induction false} SubsetSize(a: set<nat>, b: set<nat>)
    requires a <= b
    ensures |a| <= |b|
  {
    assert b == a + (b - a);
  }

  /** If K nodes are no farther than v, so are the K nearest. */
  lemma {:induction false} AboveK(s: seq<Neighbor>, some: set<nat>, d: nat -> real, K: nat, first: seq<Neighbor>,
                                  v: nat,
                                  i: nat)
    requires Nearest(s, some, d, K) && i < |s| && |first| == K
    requires DistinctIds(first) && Ids(first) <= some && Measured(first, d)
    requires forall j :: 0 <= j < |first| ==> first[j].dist <= d(v)
    ensures s[i].dist <= d(v)
  {
    PrefixKeeps(s, i, d);
    var u := MissingId(first, s[..i]);
    var j :| 0 <= j < |first| && first[j].id == u;
    if u in Ids(s) {
      var k :| 0 <= k < |s| && s[k].id == u;
      assert k >= i && s[i].dist <= s[k].dist;
    }
  }

  /**
   KGraphImpl::search with random starts, up to the results of all trials: an
   error, the exhaustive scan, or the K nearest of all the nodes visited.
   */
  method Search(g: Graph, N: nat, oracle: nat -> real, K: nat, P: nat, epsilon: real, draws: seq<seq<nat>>)
    returns (results: Result<seq<Neighbor>, SearchError>, ghost trials: seq<Trial>)
    requires GoodGraph(g) && forall i :: 0 <= i < |draws| ==> |draws[i]| == P + 1
    ensures |g.neighbors| > N ==> results == Err(DatasetLargerThanIndex)
    ensures |g.neighbors| <= N && P >= |g.neighbors| ==>
      results.Ok? && FirstWithin(oracle, N, K, epsilon, results.value)
    ensures |g.neighbors| <= N && P < |g.neighbors| ==>
      && |trials| == |draws| && Trials(g, oracle, K, P, trials)
      && results.Ok? && Nearest(results.value, SeenIn(trials), oracle, K)
      && RunAsDrawn(g, oracle, K, P, draws, trials)
      && (|draws| == 1 ==> FirstOf(results.value, trials[0].pool, K))
  {
    hide RunAsDrawn, Trials, Nearest, SeenIn, GoodGraph, FirstWithin, FirstOf;
    trials := [];
    if |g.neighbors| > N {
      return Err(DatasetLargerThanIndex), trials;
    }
    if P >= |g.neighbors| {
      results := SearchAll(N, oracle, K, epsilon);
      return;
    }
    results, trials := SearchTrials(g, oracle, K, P, draws);
  }

  /** The first K of all points within epsilon, by distance and id. */
  ghost predicate FirstWithin(oracle: nat -> real, N: nat, K: nat, epsilon: real, s: seq<Neighbor>) {
    var near := (k: nat) => oracle(k) <= epsilon;
    && s == Ranked(oracle, near, N)[..Min(K, |Ranked(oracle, near, N)|)]
    && NearestKept(oracle, near, N, K, s)
  }

  /** The exhaustive scan. */
  method SearchAll(N: nat, oracle: nat -> real, K: nat, epsilon: real)
      returns (results: Result<seq<Neighbor>, SearchError>)
    ensures results.Ok? && FirstWithin(oracle, N, K, epsilon, results.value)
  {
    hide Ranked, NearestKept;
    var nns, found := SearchOracle(N, oracle, K, epsilon);
    results := Ok(nns[..found]);
  }

  /** The results of all trials. */
  method SearchTrials(g: Graph, oracle: nat -> real, K: nat, P: nat, draws: seq<seq<nat>>)
    returns (results: Result<seq<Neighbor>, SearchError>, ghost trials: seq<Trial>)
    requires GoodGraph(g) && P < |g.neighbors| && forall i :: 0 <= i < |draws| ==> |draws[i]| == P + 1
    ensures |trials| == |draws| && Trials(g, oracle, K, P, trials) && RunAsDrawn(g, oracle, K, P, draws, trials)
    ensures results.Ok? && Nearest(results.value, SeenIn(trials), oracle, K)
    ensures |draws| == 1 ==> FirstOf(results.value, trials[0].pool, K)
  {
    hide RunAsDrawn, Trials, Nearest, SeenIn, GoodGraph, FirstOf;
    var merged, n: nat;
    merged, n, trials := RunTrials(g, oracle, K, P, draws);
    results := Ok(merged[..n]);
  }

  lemma {:induction false} StartTrials(g: Graph, d: nat -> real, K: nat, P: nat, draws: seq<seq<nat>>,
                                     flags: seq<bool>, s: seq<Neighbor>)
    requires s == [] && forall i :: 0 <= i < |flags| ==> !flags[i]
    requires P < |g.neighbors| && forall i :: 0 <= i < |draws| ==> |draws[i]| == P + 1
    ensures RunAsDrawn(g, d, K, P, draws, [])
    ensures Trials(g, d, K, P, []) && SeenIn([]) == Seen(flags) && Nearest(s, SeenIn([]), d, K)
  {
  }

  method RunTrials(g: Graph, oracle: nat -> real, K: nat, P: nat, draws: seq<seq<nat>>)
    returns (merged: array<Neighbor>, n: nat, ghost trials: seq<Trial>)
    requires GoodGraph(g) && P < |g.neighbors| && forall i :: 0 <= i < |draws| ==> |draws[i]| == P + 1
    ensures RunAsDrawn(g, oracle, K, P, draws, trials)
    ensures |trials| == |draws| && Trials(g, oracle, K, P, trials) && Merging(merged, n, K, SeenIn(trials), oracle)
    ensures |draws| == 1 ==> FirstOf(merged[..n], trials[0].pool, K)
  {
    hide *;
    var knn := new Neighbor[K + P + 1](_ => Neighbor(0, 0.0, false));
    var flags := new bool[|g.neighbors|](_ => false);
    merged := new Neighbor[K + 1](_ => Neighbor(0, 0.0, false));
    n, trials := TrialLoop(g, knn, flags, merged, oracle, K, P, draws);
  }

  method TrialLoop(g: Graph, knn: array<Neighbor>, flags: array<bool>, merged: array<Neighbor>, oracle: nat -> real,
                   K: nat, P: nat, draws: seq<seq<nat>>)
    returns (n: nat, ghost trials: seq<Trial>)
    requires GoodGraph(g) && P < |g.neighbors| && forall i :: 0 <= i < |draws| ==> |draws[i]| == P + 1
    requires knn != merged && knn.Length == K + P + 1 && merged.Length == K + 1
    requires flags.Length == |g.neighbors| && forall i :: 0 <= i < flags.Length ==> !flags[i]
    modifies knn, flags, merged
    ensures RunAsDrawn(g, oracle, K, P, draws, trials)
    ensures |trials| == |draws| && Trials(g, oracle, K, P, trials) && Merging(merged, n, K, SeenIn(trials), oracle)
    ensures |draws| == 1 ==> FirstOf(merged[..n], trials[0].pool, K)
  {
    n, trials := 0, [];
    StartTrials(g, oracle, K, P, draws, flags[..], merged[..n]);
    assert Merging(merged, n, K, SeenIn(trials), oracle);
    hide Trials, Nearest, SeenIn, Seen, Merging, GoodGraph, RunAsDrawn, FirstOf;
    var trial := 0;
    while trial < |draws|
      invariant 0 <= trial == |trials| <= |draws|
      invariant RunAsDrawn(g, oracle, K, P, draws, trials)
      invariant Trials(g, oracle, K, P, trials) && SeenIn(trials) == Seen(flags[..])
      invariant Merging(merged, n, K, SeenIn(trials), oracle)
      invariant trial == 1 ==> FirstOf(merged[..n], trials[0].pool, K)
    {
      n, trials := RunTrial(g, knn, flags, merged, n, K, P, oracle, draws, trial, trials);
      trial := trial + 1;
    }
  }
}
