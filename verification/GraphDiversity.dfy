/**
 Diversified neighbour lists: every list is cut to the candidates that lie in the
 way of few others, and the kept edges are then made symmetric.
 */
module GraphDiversities {
  import opened Sorting
  import opened KnnPools

  type Oracle = (nat, nat) -> real

  /** The candidates left when the trailing entries with id 0 are stripped. */
  function Stripped(list: seq<Neighbor>): (n: nat)
    ensures n <= |list|
  {
    if list != [] && list[|list| - 1].id == 0 then Stripped(list[..|list| - 1]) else |list|
  }

  /** At most twice as many candidates as edges are looked at. */
  function Candidates(list: seq<Neighbor>, edges: nat): (n: nat)
    ensures n <= |list|
  {
    if Stripped(list) > 2 * edges then 2 * edges else Stripped(list)
  }

  /** The candidates with their distances materialized. */
  function Measure(list: seq<Neighbor>, k: nat, oracle: Oracle): seq<Neighbor> {
    seq(|list|, i requires 0 <= i < |list| => list[i].(dist := oracle(k, list[i].id)))
  }

  /** How many of the first n candidates are nearer to candidate j than the node itself is. */
  function Hits(c: seq<Neighbor>, oracle: Oracle, j: nat, n: nat): (h: nat)
    requires j < |c| && n <= |c|
    ensures h <= n
  {
    if n == 0 then 0
    else Hits(c, oracle, j, n - 1) + if oracle(c[n - 1].id, c[j].id) < c[j].dist then 1 else 0
  }

  /** The hits of a candidate are the candidates before it that are nearer to it than the node is. */
  lemma {:induction false} HitsAre(c: seq<Neighbor>, oracle: Oracle, j: nat, n: nat)
    requires j < |c| && n <= |c|
    ensures Hits(c, oracle, j, n) == |set i | 0 <= i < n && oracle(c[i].id, c[j].id) < c[j].dist|
  {
    if n > 0 {
      HitsAre(c, oracle, j, n - 1);
      var before := set i | 0 <= i < n - 1 && oracle(c[i].id, c[j].id) < c[j].dist;
      var all := set i | 0 <= i < n && oracle(c[i].id, c[j].id) < c[j].dist;
      assert all == before + if oracle(c[n - 1].id, c[j].id) < c[j].dist then {n - 1} else {};
    }
  }

  /** The hits of every candidate; only the candidates before it count. */
  function AllHits(c: seq<Neighbor>, oracle: Oracle): seq<int> {
    seq(|c|, j requires 0 <= j < |c| => Hits(c, oracle, j, j))
  }

  /** The candidates with at most cut hits, in order. */
  function Kept(c: seq<Neighbor>, hit: seq<int>, cut: int): (r: seq<Neighbor>)
    requires |c| == |hit|
    ensures |r| <= |c|
  {
    if c == [] then []
    else
      var n := |c| - 1;
      Kept(c[..n], hit[..n], cut) + if hit[n] <= cut then [c[n]] else []
  }

  predicate IntLess(a: int, b: int) {
    a < b
  }

  /** How many numbers are at most cut. */
  function CountAtMost(s: seq<int>, cut: int): nat {
    if s == [] then 0 else CountAtMost(s[..|s| - 1], cut) + if s[|s| - 1] <= cut then 1 else 0
  }

  lemma {:induction false} KeptCount(c: seq<Neighbor>, hit: seq<int>, cut: int)
    requires |c| == |hit|
    ensures |Kept(c, hit, cut)| == CountAtMost(hit, cut)
  {
    if c != [] {
      KeptCount(c[..|c| - 1], hit[..|c| - 1], cut);
    }
  }

  lemma {:induction false} CountAppend(a: seq<int>, x: int, cut: int)
    ensures CountAtMost(a + [x], cut) == CountAtMost(a, cut) + if x <= cut then 1 else 0
  {
    assert (a + [x])[..|a|] == a;
  }

  lemma {:induction false} CountConcat(a: seq<int>, b: seq<int>, cut: int)
    ensures CountAtMost(a + b, cut) == CountAtMost(a, cut) + CountAtMost(b, cut)
  {
    if b == [] {
      assert a + b == a;
    } else {
      var n := |b| - 1;
      CountConcat(a, b[..n], cut);
      assert (a + b)[..|a| + n] == a + b[..n];
    }
  }

  lemma {:induction false} CountIs(s: seq<int>, cut: int)
    ensures CountAtMost(s, cut) == |set j | 0 <= j < |s| && s[j] <= cut|
  {
    if s != [] {
      var n := |s| - 1;
      CountIs(s[..n], cut);
      var before := set j | 0 <= j < n && s[..n][j] <= cut;
      assert (set j | 0 <= j < |s| && s[j] <= cut) == before + if s[n] <= cut then {n} else {};
    }
  }

  /** Counting does not depend on the order. */
  lemma {:induction false} CountPermuted(a: seq<int>, b: seq<int>, cut: int)
    requires multiset(a) == multiset(b)
    ensures CountAtMost(a, cut) == CountAtMost(b, cut)
    decreases |a|
  {
    assert |a| == |multiset(a)| == |multiset(b)| == |b|;
    if a != [] {
      var n := |a| - 1;
      assert a[n] in multiset(b);
      var i :| 0 <= i < |b| && b[i] == a[n];
      Without(a, n);
      Without(b, i);
      assert a[..n] + a[n + 1..] == a[..n];
      CountWithout(b, i, cut);
      CountPermuted(a[..n], b[..i] + b[i + 1..], cut);
    }
  }

  lemma {:induction false} Without(s: seq<int>, i: nat)
    requires i < |s|
    ensures multiset(s[..i] + s[i + 1..]) == multiset(s) - multiset{s[i]}
  {
    assert s == s[..i] + [s[i]] + s[i + 1..];
  }

  lemma {:induction false} CountWithout(s: seq<int>, i: nat, cut: int)
    requires i < |s|
    ensures CountAtMost(s, cut) == CountAtMost(s[..i] + s[i + 1..], cut) + if s[i] <= cut then 1 else 0
  {
    assert s == s[..i] + [s[i]] + s[i + 1..];
    CountConcat(s[..i], s[i + 1..], cut);
    CountAppend(s[..i], s[i], cut);
    CountConcat(s[..i] + [s[i]], s[i + 1..], cut);
  }

  /** More than edges candidates survive a cut at the hit count of rank edges. */
  lemma {:induction false} EnoughKept(hit: seq<int>, edges: nat)
    requires edges < |hit|
    ensures |Sort(hit, IntLess)| == |hit|
    ensures CountAtMost(hit, Sort(hit, IntLess)[edges]) > edges
  {
    var sorted := Sort(hit, IntLess);
    SortCorrect(hit, IntLess);
    CountPermuted(hit, sorted, sorted[edges]);
    CountPrefix(sorted, edges + 1, sorted[edges]);
  }

  /** No more than edges numbers are below the one of rank edges. */
  lemma {:induction false} FewBelow(hit: seq<int>, edges: nat)
    requires edges < |hit|
    ensures |Sort(hit, IntLess)| == |hit|
    ensures CountAtMost(hit, Sort(hit, IntLess)[edges] - 1) <= edges
  {
    var sorted := Sort(hit, IntLess);
    SortCorrect(hit, IntLess);
    CountPermuted(hit, sorted, sorted[edges] - 1);
    CountSuffix(sorted, edges, sorted[edges] - 1);
  }

  lemma {:induction false} CountSuffix(s: seq<int>, n: nat, cut: int)
    requires n <= |s| && forall i :: n <= i < |s| ==> s[i] > cut
    ensures CountAtMost(s, cut) <= n
    decreases |s|
  {
    if |s| > n {
      CountSuffix(s[..|s| - 1], n, cut);
    } else if n > 0 {
      CountSuffix(s[..n - 1], n - 1, cut);
    }
  }

  lemma {:induction false} CountPrefix(s: seq<int>, n: nat, cut: int)
    requires n <= |s| && forall i :: 0 <= i < n ==> s[i] <= cut
    ensures CountAtMost(s, cut) >= n
    decreases |s|
  {
    if |s| > n {
      CountPrefix(s[..|s| - 1], n, cut);
    } else if n > 0 {
      CountPrefix(s[..n - 1], n - 1, cut);
    }
  }

  /** Every kept entry is a candidate within the cut, and none of those is left out. */
  lemma {:induction false} KeptCorrect(c: seq<Neighbor>, hit: seq<int>, cut: int)
    requires |c| == |hit|
    ensures forall x :: x in Kept(c, hit, cut) <==> exists i :: 0 <= i < |c| && c[i] == x && hit[i] <= cut
  {
    if c != [] {
      var n := |c| - 1;
      KeptCorrect(c[..n], hit[..n], cut);
      forall x
        ensures x in Kept(c[..n], hit[..n], cut) <==> exists i :: 0 <= i < n && c[i] == x && hit[i] <= cut
      {
        if i :| 0 <= i < n && c[i] == x && hit[i] <= cut {
          assert c[..n][i] == x && hit[..n][i] == hit[i];
        }
      }
    }
  }

  /** Places of candidates, in order: every one within the cut up to the last of them, and no other. */
  ghost predicate PlacesWithin(hit: seq<int>, cut: int, places: seq<nat>, end: nat) {
    && (forall i :: 0 <= i < |places| ==> places[i] < end && places[i] < |hit| && hit[places[i]] <= cut)
    && (forall i, j :: 0 <= i < j < |places| ==> places[i] < places[j])
    && forall j :: 0 <= j < end && j < |hit| && hit[j] <= cut ==> j in places
  }

  /** The places the kept candidates come from. */
  lemma {:induction false} KeptPlaces(c: seq<Neighbor>, hit: seq<int>, cut: int) returns (places: seq<nat>)
    requires |c| == |hit|
    ensures PlacesWithin(hit, cut, places, |c|) && |places| == |Kept(c, hit, cut)|
    ensures forall i :: 0 <= i < |places| ==> Kept(c, hit, cut)[i] == c[places[i]]
  {
    if c == [] {
      places := [];
    } else {
      hide PlacesWithin;
      var n := |c| - 1;
      var front := KeptPlaces(c[..n], hit[..n], cut);
      places := front + if hit[n] <= cut then [n] else [];
      PlacesNext(hit, cut, front);
    }
  }

  lemma {:induction false} PlacesNext(hit: seq<int>, cut: int, front: seq<nat>)
    requires hit != [] && PlacesWithin(hit[..|hit| - 1], cut, front, |hit| - 1)
    ensures PlacesWithin(hit, cut, front + if hit[|hit| - 1] <= cut then [|hit| - 1] else [], |hit|)
  {
    var n := |hit| - 1;
    var places := front + if hit[n] <= cut then [n] else [];
    assert forall i :: 0 <= i < |front| ==> places[i] == front[i];
    forall j | 0 <= j < |hit| && hit[j] <= cut
      ensures j in places
    {
      if j < n {
        assert hit[..n][j] <= cut && j in front;
      } else {
        assert places[|front|] == n;
      }
    }
  }

  /** The first of these places are those up to the last of them. */
  lemma {:induction false} FirstPlaces(hit: seq<int>, cut: int, places: seq<nat>, end: nat, m: nat)
    requires PlacesWithin(hit, cut, places, end) && 0 < m <= |places|
    ensures PlacesWithin(hit, cut, places[..m], places[m - 1] + 1)
  {
    forall j | 0 <= j <= places[m - 1] && j < |hit| && hit[j] <= cut
      ensures j in places[..m]
    {
      var i :| 0 <= i < |places| && places[i] == j;
      assert i < m;
      assert places[..m][i] == j;
    }
  }

  lemma {:induction false} KeptDistinct(c: seq<Neighbor>, hit: seq<int>, cut: int)
    requires |c| == |hit| && DistinctIds(c)
    ensures DistinctIds(Kept(c, hit, cut))
  {
    if c != [] {
      var n := |c| - 1;
      var r := Kept(c[..n], hit[..n], cut);
      KeptDistinct(c[..n], hit[..n], cut);
      KeptCorrect(c[..n], hit[..n], cut);
      forall i | 0 <= i < |r|
        ensures r[i].id != c[n].id
      {
        assert r[i] in r;
      }
    }
  }

  lemma {:induction false} KeptFirst(c: seq<Neighbor>, hit: seq<int>, cut: int)
    requires |c| == |hit| && c != [] && hit[0] <= cut
    ensures Kept(c, hit, cut) != [] && Kept(c, hit, cut)[0] == c[0]
  {
    if |c| > 1 {
      KeptFirst(c[..|c| - 1], hit[..|c| - 1], cut);
    }
  }

  /** The list diversify_by_cut leaves for node k. */
  function Cut(list: seq<Neighbor>, k: nat, edges: nat, oracle: Oracle): seq<Neighbor>
    requires edges < Candidates(list, edges)
  {
    var c := Measure(list[..Candidates(list, edges)], k, oracle);
    var hit := AllHits(c, oracle);
    EnoughKept(hit, edges);
    KeptCount(c, hit, Sort(hit, IntLess)[edges]);
    Kept(c, hit, Sort(hit, IntLess)[edges])[..edges]
  }

  /**
   Exactly `edges` genuine candidates remain, the first listed neighbour among
   them, each with its distance, and no id twice if none was.
   */
  lemma {:induction false} CutCorrect(list: seq<Neighbor>, k: nat, edges: nat, oracle: Oracle)
    requires 0 < edges < Candidates(list, edges)
    ensures |Cut(list, k, edges, oracle)| == edges
    ensures Cut(list, k, edges, oracle)[0].id == list[0].id
    ensures Measured(Cut(list, k, edges, oracle), (v: nat) => oracle(k, v))
    ensures Ids(Cut(list, k, edges, oracle)) <= Ids(list[..Candidates(list, edges)])
    ensures DistinctIds(list) ==> DistinctIds(Cut(list, k, edges, oracle))
  {
    var c := Measure(list[..Candidates(list, edges)], k, oracle);
    var hit := AllHits(c, oracle);
    EnoughKept(hit, edges);
    var cut := Sort(hit, IntLess)[edges];
    KeptCount(c, hit, cut);
    KeptCorrect(c, hit, cut);
    var r := Kept(c, hit, cut);
    assert hit[0] == 0 <= cut by {
      SortCorrect(hit, IntLess);
      assert Sort(hit, IntLess)[edges] in hit;
    }
    KeptFirst(c, hit, cut);
    if DistinctIds(list) {
      KeptDistinct(c, hit, cut);
    }
    forall i | 0 <= i < edges
      ensures r[i].dist == oracle(k, r[i].id) && r[i].id in Ids(list[..Candidates(list, edges)])
    {
      assert r[i] in r;
      var j :| 0 <= j < |c| && c[j] == r[i] && hit[j] <= cut;
      assert c[j].id == list[..Candidates(list, edges)][j].id;
    }
  }

  /** The candidates listed before place j that are nearer to it than node k is. */
  ghost function InTheWay(list: seq<Neighbor>, k: nat, oracle: Oracle, j: nat): set<int>
    requires j < |list|
  {
    set i | 0 <= i < j && oracle(list[i].id, list[j].id) < oracle(k, list[j].id)
  }

  /** The first n candidates with at most cut others in their way. */
  ghost function Within(list: seq<Neighbor>, k: nat, oracle: Oracle, n: nat, cut: int): set<int>
    requires n <= |list|
  {
    set j | 0 <= j < n && |InTheWay(list, k, oracle, j)| <= cut
  }

  /**
   What cutting means: cut is the least number that more than edges of the first n candidates do not
   exceed, and the first edges of those candidates remain, in order and at their distances from node k.
   */
  ghost predicate CutTo(list: seq<Neighbor>, k: nat, edges: nat, oracle: Oracle, n: nat, cut: int, places: seq<nat>,
                        r: seq<Neighbor>)
    requires n <= |list|
  {
    && |Within(list, k, oracle, n, cut)| > edges && |Within(list, k, oracle, n, cut - 1)| <= edges
    && |places| == |r| == edges && (forall i, j :: 0 <= i < j < edges ==> places[i] < places[j])
    && (forall i :: 0 <= i < edges ==> places[i] in Within(list, k, oracle, n, cut))
    && (forall i, j :: 0 <= i < edges && j in Within(list, k, oracle, n, cut) && j < places[i] ==> j in places)
    && forall i :: 0 <= i < edges ==> r[i] == list[places[i]].(dist := oracle(k, list[places[i]].id))
  }

  /** r is what list is cut to. */
  ghost predicate IsCut(list: seq<Neighbor>, k: nat, edges: nat, oracle: Oracle, r: seq<Neighbor>) {
    exists cut, places :: CutTo(list, k, edges, oracle, Candidates(list, edges), cut, places, r)
  }

  /** How many entries are candidates: up to the last id other than 0, and at most twice the edges. */
  lemma {:induction false} CandidatesAre(list: seq<Neighbor>, edges: nat)
    ensures var n := Candidates(list, edges);
      && n <= 2 * edges && n <= |list|
      && (n < 2 * edges ==> forall i :: n <= i < |list| ==> list[i].id == 0)
      && (n > 0 ==> exists i :: n - 1 <= i < |list| && list[i].id != 0 && (n < 2 * edges ==> i == n - 1))
  {
    StrippedAre(list);
  }

  lemma {:induction false} StrippedAre(list: seq<Neighbor>)
    ensures forall i :: Stripped(list) <= i < |list| ==> list[i].id == 0
    ensures Stripped(list) > 0 ==> list[Stripped(list) - 1].id != 0
  {
    if list != [] && list[|list| - 1].id == 0 {
      StrippedAre(list[..|list| - 1]);
    }
  }

  /** Cut does what cutting means. */
  lemma {:induction false} CutMeans(list: seq<Neighbor>, k: nat, edges: nat, oracle: Oracle)
    requires 0 < edges < Candidates(list, edges)
    ensures IsCut(list, k, edges, oracle, Cut(list, k, edges, oracle))
  {
    hide Within, InTheWay, PlacesWithin, Kept, Sort, CountAtMost, Cut;
    var n := Candidates(list, edges);
    var c := Measure(list[..n], k, oracle);
    var hit := AllHits(c, oracle);
    EnoughKept(hit, edges);
    FewBelow(hit, edges);
    var cut := Sort(hit, IntLess)[edges];
    KeptCount(c, hit, cut);
    WithinCount(list, k, oracle, n, cut);
    WithinCount(list, k, oracle, n, cut - 1);
    var all := KeptPlaces(c, hit, cut);
    FirstPlaces(hit, cut, all, n, edges);
    HitsInTheWay(list, k, oracle, n);
    CutPlaces(list, k, oracle, n, cut, hit, all[..edges]);
    PlacesIn(hit, cut, all, n);
    CutUnfolded(list, k, edges, oracle);
    CutFrom(list, k, edges, oracle, n, cut, all, Kept(c, hit, cut), Cut(list, k, edges, oracle));
  }

  lemma PlacesIn(hit: seq<int>, cut: int, places: seq<nat>, end: nat)
    requires PlacesWithin(hit, cut, places, end)
    ensures forall i :: 0 <= i < |places| ==> places[i] < end
    ensures forall i, j :: 0 <= i < j < |places| ==> places[i] < places[j]
  {
  }

  lemma CutUnfolded(list: seq<Neighbor>, k: nat, edges: nat, oracle: Oracle)
    requires edges < Candidates(list, edges)
    ensures var c := Measure(list[..Candidates(list, edges)], k, oracle);
      var hit := AllHits(c, oracle);
      && |Sort(hit, IntLess)| == |hit|
      && edges <= |Kept(c, hit, Sort(hit, IntLess)[edges])|
      && Cut(list, k, edges, oracle) == Kept(c, hit, Sort(hit, IntLess)[edges])[..edges]
  {
    var hit := AllHits(Measure(list[..Candidates(list, edges)], k, oracle), oracle);
    EnoughKept(hit, edges);
    KeptCount(Measure(list[..Candidates(list, edges)], k, oracle), hit, Sort(hit, IntLess)[edges]);
  }

  lemma {:induction false} CutFrom(list: seq<Neighbor>, k: nat, edges: nat, oracle: Oracle, n: nat, cut: int,
                                   all: seq<nat>, kept: seq<Neighbor>, r: seq<Neighbor>)
    requires n == Candidates(list, edges) && edges <= |all| == |kept| && r == kept[..edges]
    requires |Within(list, k, oracle, n, cut)| > edges && |Within(list, k, oracle, n, cut - 1)| <= edges
    requires forall i, j :: 0 <= i < j < |all| ==> all[i] < all[j]
    requires forall i :: 0 <= i < edges ==> all[..edges][i] in Within(list, k, oracle, n, cut)
    requires forall i, j :: 0 <= i < edges && j in Within(list, k, oracle, n, cut) && j < all[..edges][i] ==>
      j in all[..edges]
    requires forall i :: 0 <= i < |all| ==> all[i] < n && kept[i] == Measure(list[..n], k, oracle)[all[i]]
    ensures IsCut(list, k, edges, oracle, r)
  {
    hide Within, Candidates;
    var places := all[..edges];
    forall i | 0 <= i < edges
      ensures r[i] == list[places[i]].(dist := oracle(k, list[places[i]].id))
    {
      assert places[i] == all[i] && r[i] == kept[i];
    }
    assert CutTo(list, k, edges, oracle, n, cut, places, r);
  }

  lemma {:induction false} HitsInTheWay(list: seq<Neighbor>, k: nat, oracle: Oracle, n: nat)
    requires n <= |list|
    ensures var hit := AllHits(Measure(list[..n], k, oracle), oracle);
      |hit| == n && forall j :: 0 <= j < n ==> hit[j] == |InTheWay(list, k, oracle, j)|
  {
    var c := Measure(list[..n], k, oracle);
    forall j | 0 <= j < n
      ensures Hits(c, oracle, j, j) == |InTheWay(list, k, oracle, j)|
    {
      HitsAre(c, oracle, j, j);
      assert (set i | 0 <= i < j && oracle(c[i].id, c[j].id) < c[j].dist) == InTheWay(list, k, oracle, j);
    }
  }

  lemma {:induction false} WithinCount(list: seq<Neighbor>, k: nat, oracle: Oracle, n: nat, cut: int)
    requires n <= |list|
    ensures CountAtMost(AllHits(Measure(list[..n], k, oracle), oracle), cut) == |Within(list, k, oracle, n, cut)|
  {
    var hit := AllHits(Measure(list[..n], k, oracle), oracle);
    HitsInTheWay(list, k, oracle, n);
    CountIs(hit, cut);
    assert (set j | 0 <= j < |hit| && hit[j] <= cut) == Within(list, k, oracle, n, cut);
  }

  lemma {:induction false} CutPlaces(list: seq<Neighbor>, k: nat, oracle: Oracle, n: nat, cut: int, hit: seq<int>,
                                     places: seq<nat>)
    requires n <= |list| && |hit| == n && forall j :: 0 <= j < n ==> hit[j] == |InTheWay(list, k, oracle, j)|
    requires places != [] && PlacesWithin(hit, cut, places, places[|places| - 1] + 1)
    ensures forall i :: 0 <= i < |places| ==> places[i] in Within(list, k, oracle, n, cut)
    ensures forall i, j :: 0 <= i < |places| && j in Within(list, k, oracle, n, cut) && j < places[i] ==> j in places
  {
  }

  /** One node of diversify_by_cut. */
  method CutList(list: seq<Neighbor>, k: nat, edges: nat, oracle: Oracle) returns (r: seq<Neighbor>)
    requires edges < Candidates(list, edges)
    ensures r == Cut(list, k, edges, oracle)
  {
    var len := StripList(list);
    if len > 2 * edges {
      len := 2 * edges;
    }
    var c := MeasureCandidates(list, len, k, oracle);
    var hit := CountHits(c, oracle);
    EnoughKept(hit, edges);
    var cut := Sort(hit, IntLess)[edges];
    KeptCount(c, hit, cut);
    var kept := KeepWithin(c, hit, cut);
    r := kept[..edges];
  }

  method StripList(list: seq<Neighbor>) returns (len: nat)
    requires Stripped(list) > 0
    ensures len == Stripped(list)
  {
    len := |list|;
    assert list[..len] == list;
    while list[len - 1].id == 0
      invariant 0 < len <= |list| && Stripped(list) == Stripped(list[..len])
      decreases len
    {
      assert list[..len][..len - 1] == list[..len - 1];
      len := len - 1;
    }
  }

  method KeepWithin(c: seq<Neighbor>, hit: seq<int>, cut: int) returns (kept: seq<Neighbor>)
    requires |c| == |hit|
    ensures kept == Kept(c, hit, cut)
  {
    kept := [];
    var i := 0;
    while i < |c|
      invariant 0 <= i <= |c| && kept == Kept(c[..i], hit[..i], cut)
    {
      assert c[..i + 1][..i] == c[..i] && hit[..i + 1][..i] == hit[..i];
      if hit[i] <= cut {
        kept := kept + [c[i]];
      }
      i := i + 1;
    }
    assert c[..i] == c && hit[..i] == hit;
  }

  method MeasureCandidates(list: seq<Neighbor>, len: nat, k: nat, oracle: Oracle) returns (c: seq<Neighbor>)
    requires len <= |list|
    ensures c == Measure(list[..len], k, oracle)
  {
    c := list[..len];
    var i := 0;
    while i < len
      invariant 0 <= i <= len == |c|
      invariant forall j :: 0 <= j < i ==> c[j] == list[j].(dist := oracle(k, list[j].id))
      invariant forall j :: i <= j < len ==> c[j] == list[j]
    {
      c := c[i := c[i].(dist := oracle(k, c[i].id))];
      i := i + 1;
    }
  }

  /** The double loop over the pairs i < j of candidates. */
  method CountHits(c: seq<Neighbor>, oracle: Oracle) returns (hit: seq<int>)
    ensures hit == AllHits(c, oracle)
    ensures forall j :: 0 <= j < |c| ==> hit[j] == |set i | 0 <= i < j && oracle(c[i].id, c[j].id) < c[j].dist|
  {
    hit := seq(|c|, _ => 0);
    var i := 0;
    while i < |c| - 1
      invariant 0 <= i <= |c| == |hit| && (i < |c| || c == [])
      invariant forall j :: 0 <= j < |c| ==> hit[j] == Hits(c, oracle, j, if i < j then i else j)
    {
      var j := i + 1;
      while j < |c|
        invariant i + 1 <= j <= |c| == |hit|
        invariant forall l :: 0 <= l < j ==> hit[l] == Hits(c, oracle, l, if i + 1 < l then i + 1 else l)
        invariant forall l :: j <= l < |c| ==> hit[l] == Hits(c, oracle, l, i)
      {
        var dist := oracle(c[i].id, c[j].id);
        if dist < c[j].dist {
          hit := hit[j := hit[j] + 1];
        }
        j := j + 1;
      }
      i := i + 1;
    }
    forall j | 0 <= j < |c|
      ensures hit[j] == |set l | 0 <= l < j && oracle(c[l].id, c[j].id) < c[j].dist|
    {
      HitsAre(c, oracle, j, j);
    }
  }

  /** The reversed edges into v among the first m entries of the list of node i. */
  function ReversedRow(row: seq<Neighbor>, m: nat, i: nat, v: nat): seq<Neighbor>
    requires m <= |row|
  {
    if m == 0 then []
    else ReversedRow(row, m - 1, i, v) + if row[m - 1].id == v then [Neighbor(i, row[m - 1].dist, true)] else []
  }

  /** The first M[i] entries of list i are the edges of node i. */
  ghost predicate GoodLists(graph: seq<seq<Neighbor>>, M: seq<nat>) {
    && |M| == |graph|
    && (forall i :: 0 <= i < |graph| ==> M[i] <= |graph[i]|)
    && forall i, j :: 0 <= i < |graph| && 0 <= j < |graph[i]| ==> graph[i][j].id < |graph|
  }

  /** The reversed edges into v from the first n nodes. */
  function Reversed(graph: seq<seq<Neighbor>>, M: seq<nat>, n: nat, v: nat): seq<Neighbor>
    requires GoodLists(graph, M) && n <= |graph|
  {
    if n == 0 then []
    else Reversed(graph, M, n - 1, v) + ReversedRow(graph[n - 1], M[n - 1], n - 1, v)
  }

  /** Drops every entry whose id equals that of the entry before it. */
  function Deduped(s: seq<Neighbor>): seq<Neighbor> {
    if |s| <= 1 then s
    else
      var n := |s| - 1;
      var before := Deduped(s[..n]);
      if before != [] && s[n].id == before[|before| - 1].id then before else before + [s[n]]
  }

  /** The list add_backward_edges leaves for node v. */
  function Symmetric(graph: seq<seq<Neighbor>>, M: seq<nat>, v: nat): seq<Neighbor>
    requires GoodLists(graph, M) && v < |graph|
  {
    Deduped(Sort(graph[v] + Reversed(graph, M, |graph|, v), Closer))
  }

  lemma {:induction false} ReversedRowMembers(row: seq<Neighbor>, m: nat, i: nat, v: nat)
    requires m <= |row|
    ensures forall e :: e in ReversedRow(row, m, i, v) ==>
      e.id == i && exists j :: 0 <= j < m && row[j].id == v && row[j].dist == e.dist
    ensures (exists j :: 0 <= j < m && row[j].id == v) ==> ReversedRow(row, m, i, v) != []
  {
    if m > 0 {
      ReversedRowMembers(row, m - 1, i, v);
    }
  }

  /** u is listed by w. */
  ghost predicate Listed(graph: seq<seq<Neighbor>>, w: nat, u: nat) {
    w < |graph| && u in Ids(graph[w])
  }

  /** u is listed by w among its edges. */
  ghost predicate Edge(graph: seq<seq<Neighbor>>, M: seq<nat>, w: nat, u: nat) {
    && w < |graph| == |M| && M[w] <= |graph[w]|
    && exists j :: 0 <= j < M[w] && graph[w][j].id == u
  }

  lemma {:induction false} ReversedMembers(graph: seq<seq<Neighbor>>, M: seq<nat>, n: nat, v: nat, oracle: Oracle)
    requires GoodLists(graph, M) && n <= |graph|
    requires forall i :: 0 <= i < |graph| ==> Measured(graph[i], (u: nat) => oracle(i, u))
    requires forall a, b :: oracle(a, b) == oracle(b, a)
    ensures Measured(Reversed(graph, M, n, v), (u: nat) => oracle(v, u))
    ensures forall i: nat :: i in Ids(Reversed(graph, M, n, v)) <==> i < n && Edge(graph, M, i, v)
  {
    if n > 0 {
      ReversedMembers(graph, M, n - 1, v, oracle);
      var a, b := Reversed(graph, M, n - 1, v), ReversedRow(graph[n - 1], M[n - 1], n - 1, v);
      RowBack(graph, M, n - 1, v, oracle);
      ConcatIds(a, b);
    }
  }

  /** The reversed edges from node w into v: at the distance from v, and there are some exactly when w lists v. */
  lemma {:induction false} RowBack(graph: seq<seq<Neighbor>>, M: seq<nat>, w: nat, v: nat, oracle: Oracle)
    requires GoodLists(graph, M) && w < |graph| && Measured(graph[w], (u: nat) => oracle(w, u))
    requires forall a, b :: oracle(a, b) == oracle(b, a)
    ensures Measured(ReversedRow(graph[w], M[w], w, v), (u: nat) => oracle(v, u))
    ensures forall i: nat :: i in Ids(ReversedRow(graph[w], M[w], w, v)) <==> i == w && Edge(graph, M, w, v)
  {
    var row, b := graph[w], ReversedRow(graph[w], M[w], w, v);
    ReversedRowMembers(row, M[w], w, v);
    forall i | 0 <= i < |b|
      ensures b[i].id == w && b[i].dist == oracle(v, b[i].id) && Edge(graph, M, w, v)
    {
      assert b[i] in b;
      var j :| 0 <= j < M[w] && row[j].id == v && row[j].dist == b[i].dist;
    }
    if Edge(graph, M, w, v) {
      assert b[0].id in Ids(b);
    }
  }

  lemma {:induction false} ConcatIds(a: seq<Neighbor>, b: seq<Neighbor>)
    ensures Ids(a + b) == Ids(a) + Ids(b)
  {
    assert forall i :: 0 <= i < |a| ==> (a + b)[i] == a[i];
    assert forall i :: 0 <= i < |b| ==> (a + b)[|a| + i] == b[i];
  }

  /** Sorted by (distance, id), entries of one id lie together, so one of them stays. */
  lemma {:induction false} DedupedCorrect(s: seq<Neighbor>, d: nat -> real)
    requires Measured(s, d) && SortedBy(s, Closer)
    ensures Ids(Deduped(s)) == Ids(s) && Measured(Deduped(s), d)
    ensures forall i, j :: 0 <= i < j < |Deduped(s)| ==> Closer(Deduped(s)[i], Deduped(s)[j])
    ensures s != [] ==> Deduped(s) != [] && Deduped(s)[|Deduped(s)| - 1].id == s[|s| - 1].id
  {
    if |s| > 1 {
      var n := |s| - 1;
      DedupedCorrect(s[..n], d);
      DedupedNext(s[..n], Deduped(s[..n]), s[n], d);
      assert s == s[..n] + [s[n]];
    }
  }

  /** A further entry is no nearer than the last one kept; it is dropped if it has its id. */
  lemma {:induction false} DedupedNext(s: seq<Neighbor>, t: seq<Neighbor>, x: Neighbor, d: nat -> real)
    requires s != [] && t != [] && Ids(t) == Ids(s) && Measured(t, d) && x.dist == d(x.id)
    requires t[|t| - 1].id == s[|s| - 1].id && s[|s| - 1].dist == d(s[|s| - 1].id) && !Closer(x, s[|s| - 1])
    requires forall i, j :: 0 <= i < j < |t| ==> Closer(t[i], t[j])
    ensures Ids(s + [x]) == Ids(t + [x]) && Measured(t + [x], d)
    ensures x.id == t[|t| - 1].id ==> Ids(s + [x]) == Ids(t)
    ensures x.id != t[|t| - 1].id ==> forall i, j :: 0 <= i < j <= |t| ==> Closer((t + [x])[i], (t + [x])[j])
  {
    ConcatIds(s, [x]);
    ConcatIds(t, [x]);
    var last := t[|t| - 1];
    assert last.id in Ids(t);
    assert Ids([x]) == {x.id} by {
      assert [x][0].id == x.id;
    }
    if x.id != last.id {
      forall i | 0 <= i < |t|
        ensures Closer(t[i], x)
      {
        assert i == |t| - 1 || Closer(t[i], last);
      }
    }
  }

  method DedupeAdjacent(list: seq<Neighbor>) returns (r: seq<Neighbor>)
    ensures r == Deduped(list)
  {
    r := list;
    var j := 1;
    ghost var rest := if list == [] then [] else list[1..];
    assert list != [] ==> list[..|list| - |rest|] == list[..1];
    while j < |r|
      invariant |rest| <= |list| && (list == [] || |rest| < |list|) && (list == [] ==> r == [] && rest == [])
      invariant list != [] ==> j == |r| - |rest| && 1 <= j && r[j..] == rest == list[|list| - |rest|..]
      invariant list != [] ==> r[..j] == Deduped(list[..|list| - |rest|])
      decreases |rest|
    {
      ghost var n := |list| - |rest|;
      assert list[..n + 1][..n] == list[..n];
      assert r[j] == rest[0] == list[n];
      assert r[..j + 1] == r[..j] + [r[j]];
      assert rest[1..] == list[n + 1..];
      if r[j].id == r[j - 1].id {
        r := r[..j] + r[j + 1..];
      } else {
        j := j + 1;
      }
      rest := rest[1..];
    }
    assert list[..|list|] == list;
  }

  /** More candidates than edges remain in every list. */
  ghost predicate Diversifiable(graph: seq<seq<Neighbor>>, edges: nat) {
    edges > 0 && forall k :: 0 <= k < |graph| ==> edges < Candidates(graph[k], edges)
  }

  lemma {:induction false} AllCut(graph: seq<seq<Neighbor>>, graph': seq<seq<Neighbor>>, edges: nat, oracle: Oracle)
    requires Diversifiable(graph, edges) && |graph'| == |graph|
    requires forall k :: 0 <= k < |graph| ==> graph'[k] == Cut(graph[k], k, edges, oracle)
    ensures forall k :: 0 <= k < |graph| ==> IsCut(graph[k], k, edges, oracle, graph'[k])
  {
    forall k | 0 <= k < |graph|
      ensures IsCut(graph[k], k, edges, oracle, graph'[k])
    {
      CutMeans(graph[k], k, edges, oracle);
    }
  }

  /** The lists of every node and how many entries of each are edges. */
  class KGraph {
    var graph: seq<seq<Neighbor>>
    var M: seq<nat>

    ghost predicate Valid()
      reads this
    {
      |M| == |graph|
    }

    /** Every list is cut on its own. */
    method DiversifyByCut(oracle: Oracle, edges: nat)
      requires Valid() && Diversifiable(graph, edges)
      modifies this
      ensures Valid() && |graph| == |old(graph)|
      ensures forall k :: 0 <= k < |graph| ==> IsCut(old(graph)[k], k, edges, oracle, graph[k])
      ensures forall k :: 0 <= k < |graph| ==>
        graph[k] == Cut(old(graph)[k], k, edges, oracle) && M[k] == |graph[k]| == edges
    {
      var k := 0;
      while k < |graph|
        invariant 0 <= k <= |graph| == |old(graph)| == |M|
        invariant forall i :: 0 <= i < k ==>
          graph[i] == Cut(old(graph)[i], i, edges, oracle) && M[i] == |graph[i]| == edges
        invariant forall i :: k <= i < |graph| ==> graph[i] == old(graph)[i]
      {
        var cut := CutList(graph[k], k, edges, oracle);
        CutCorrect(graph[k], k, edges, oracle);
        graph := graph[k := cut];
        M := M[k := edges];
        k := k + 1;
      }
      AllCut(old(graph), graph, edges, oracle);
    }

    /** The edges of all nodes, reversed and collected at their targets. */
    method ReverseEdges() returns (rknn: seq<seq<Neighbor>>)
      requires GoodLists(graph, M)
      ensures |rknn| == |graph| && forall v :: 0 <= v < |graph| ==> rknn[v] == Reversed(graph, M, |graph|, v)
    {
      rknn := seq(|graph|, _ => []);
      var i := 0;
      while i < |graph|
        invariant 0 <= i <= |graph| == |rknn|
        invariant forall v :: 0 <= v < |graph| ==> rknn[v] == Reversed(graph, M, i, v)
      {
        var knn := graph[i];
        var j := 0;
        while j < M[i]
          invariant 0 <= j <= M[i] && |rknn| == |graph|
          invariant forall v :: 0 <= v < |graph| ==> rknn[v] == Reversed(graph, M, i, v) + ReversedRow(knn, j, i, v)
        {
          var v := knn[j].id;
          rknn := rknn[v := rknn[v] + [Neighbor(i, knn[j].dist, true)]];
          j := j + 1;
        }
        i := i + 1;
      }
    }

    method AddBackwardEdges()
      requires GoodLists(graph, M)
      modifies this
      ensures |M| == |graph| == |old(graph)|
      ensures forall v :: 0 <= v < |graph| ==> graph[v] == Symmetric(old(graph), old(M), v) && M[v] == |graph[v]|
    {
      var rknn := ReverseEdges();
      hide Symmetric, Reversed;
      var i := 0;
      while i < |graph|
        invariant 0 <= i <= |graph| == |old(graph)| == |M|
        invariant forall v :: 0 <= v < i ==> graph[v] == Symmetric(old(graph), old(M), v) && M[v] == |graph[v]|
        invariant forall v :: i <= v < |graph| ==> graph[v] == old(graph)[v]
      {
        var list := SortAndDedupe(graph[i] + rknn[i]);
        SymmetricOf(old(graph), old(M), i, rknn[i]);
        graph := graph[i := list];
        M := M[i := |list|];
        i := i + 1;
      }
    }
  }

  method SortAndDedupe(both: seq<Neighbor>) returns (list: seq<Neighbor>)
    ensures list == Deduped(Sort(both, Closer))
  {
    list := Sort(both, Closer);
    list := DedupeAdjacent(list);
  }

  lemma SymmetricOf(graph: seq<seq<Neighbor>>, M: seq<nat>, v: nat, back: seq<Neighbor>)
    requires GoodLists(graph, M) && v < |graph| && back == Reversed(graph, M, |graph|, v)
    ensures Symmetric(graph, M, v) == Deduped(Sort(graph[v] + back, Closer))
  {
  }

  lemma CloserStrictWeak()
    ensures StrictWeakOrder(Closer)
  {
  }

  /** One list after the reversal: sorted by (distance, id), no id twice, the old entries and the edges back. */
  lemma {:induction false} SymmetricList(graph: seq<seq<Neighbor>>, M: seq<nat>, v: nat, oracle: Oracle)
    requires GoodLists(graph, M) && v < |graph|
    requires forall i :: 0 <= i < |graph| ==> Measured(graph[i], (u: nat) => oracle(i, u))
    requires forall a, b :: oracle(a, b) == oracle(b, a)
    ensures var list := Symmetric(graph, M, v);
      && Measured(list, (u: nat) => oracle(v, u)) && DistinctIds(list)
      && (forall i, j :: 0 <= i < j < |list| ==> Closer(list[i], list[j]))
      && forall u: nat :: u in Ids(list) <==> Listed(graph, v, u) || Edge(graph, M, u, v)
  {
    var d := (u: nat) => oracle(v, u);
    var back := Reversed(graph, M, |graph|, v);
    var both := graph[v] + back;
    var s := Sort(both, Closer);
    ReversedMembers(graph, M, |graph|, v, oracle);
    ConcatIds(graph[v], back);
    CloserStrictWeak();
    SortCorrect(both, Closer);
    assert forall i :: 0 <= i < |s| ==> s[i] in both;
    assert forall i :: 0 <= i < |both| ==> both[i] in s;
    assert Ids(s) == Ids(both);
    DedupedCorrect(s, d);
  }

  ghost predicate Mirrored(graph: seq<seq<Neighbor>>) {
    forall v: nat, u: nat :: Listed(graph, v, u) ==> Listed(graph, u, v)
  }

  /** The reversal makes a graph symmetric exactly when no entry beyond the edges lacks its mirror image. */
  lemma {:induction false} SymmetricIff(graph: seq<seq<Neighbor>>, M: seq<nat>, graph': seq<seq<Neighbor>>,
                                        oracle: Oracle)
    requires GoodLists(graph, M)
    requires forall i :: 0 <= i < |graph| ==> Measured(graph[i], (w: nat) => oracle(i, w))
    requires forall a, b :: oracle(a, b) == oracle(b, a)
    requires |graph'| == |graph| && forall i :: 0 <= i < |graph| ==> graph'[i] == Symmetric(graph, M, i)
    ensures Mirrored(graph') <==>
      forall v: nat, u: nat :: Listed(graph, v, u) && !Edge(graph, M, v, u) ==> Listed(graph, u, v)
  {
    forall v: nat, u: nat
      ensures Listed(graph', v, u) <==> Listed(graph, v, u) || (v < |graph| && Edge(graph, M, u, v))
      ensures Edge(graph, M, v, u) ==> Listed(graph, v, u) && u < |graph|
      ensures Listed(graph, v, u) ==> u < |graph|
    {
      if v < |graph| {
        SymmetricList(graph, M, v, oracle);
      }
    }
  }

  lemma {:induction false} ShortListStays(s: seq<Neighbor>)
    requires |s| <= 1
    ensures Deduped(Sort(s, Closer)) == s
  {
    if s != [] {
      assert Sort(s[1..], Closer) == [];
      assert Sort(s, Closer) == Insert(s[0], [], Closer) == [s[0]];
    }
  }

  /** Without edges the reversal adds nothing. */
  lemma {:induction false} NothingReversed(graph: seq<seq<Neighbor>>, M: seq<nat>, n: nat, v: nat)
    requires GoodLists(graph, M) && n <= |graph| && forall i :: 0 <= i < |M| ==> M[i] == 0
    ensures Reversed(graph, M, n, v) == []
  {
    if n > 0 {
      NothingReversed(graph, M, n - 1, v);
      assert ReversedRow(graph[n - 1], 0, n - 1, v) == [];
    }
  }

  lemma {:induction false} StaysAlone(graph: seq<seq<Neighbor>>, M: seq<nat>, v: nat)
    requires GoodLists(graph, M) && v < |graph| && |graph[v]| <= 1 && forall i :: 0 <= i < |M| ==> M[i] == 0
    ensures Symmetric(graph, M, v) == graph[v]
  {
    NothingReversed(graph, M, |graph|, v);
    assert graph[v] + [] == graph[v];
    ShortListStays(graph[v]);
  }

  /** Node 0 lists node 1, but not as an edge: the reversal leaves the graph as it is, without the way back. */
  lemma {:induction false} OneWayStays(oracle: Oracle)
    requires oracle(0, 1) == 0.0
    ensures var graph, M := [[Neighbor(1, 0.0, true)], []], [0, 0];
      && GoodLists(graph, M) && Measured(graph[0], (w: nat) => oracle(0, w))
      && Symmetric(graph, M, 0) == graph[0] && Symmetric(graph, M, 1) == graph[1] && !Mirrored(graph)
  {
    var graph: seq<seq<Neighbor>>, M: seq<nat> := [[Neighbor(1, 0.0, true)], []], [0, 0];
    StaysAlone(graph, M, 0);
    StaysAlone(graph, M, 1);
    hide Symmetric;
    assert graph[0][0].id in Ids(graph[0]) && Listed(graph, 0, 1) && !Listed(graph, 1, 0);
  }

  /** Ids of all entries are nodes. */
  ghost predicate InGraph(graph: seq<seq<Neighbor>>) {
    forall i, j :: 0 <= i < |graph| && 0 <= j < |graph[i]| ==> graph[i][j].id < |graph|
  }

  /** The lists diversify_by_cut leaves. */
  function CutAll(graph: seq<seq<Neighbor>>, edges: nat, oracle: Oracle): seq<seq<Neighbor>>
    requires Diversifiable(graph, edges)
  {
    seq(|graph|, k requires 0 <= k < |graph| => Cut(graph[k], k, edges, oracle))
  }

  /** The graph after diversify_by_cut and then add_backward_edges. */
  function Diversified(graph: seq<seq<Neighbor>>, edges: nat, oracle: Oracle): seq<seq<Neighbor>>
    requires Diversifiable(graph, edges) && InGraph(graph)
  {
    CutAllGood(graph, edges, oracle);
    var f, M := CutAll(graph, edges, oracle), seq(|graph|, _ => edges);
    seq(|graph|, v requires 0 <= v < |graph| => Symmetric(f, M, v))
  }

  /** Cut and reversed: the graph is symmetric, keeps every kept edge and every first listed neighbour. */
  lemma {:induction false} DiversifiedSymmetric(graph: seq<seq<Neighbor>>, edges: nat, oracle: Oracle, v: nat)
    requires Diversifiable(graph, edges) && InGraph(graph) && v < |graph|
    requires forall a, b :: oracle(a, b) == oracle(b, a)
    ensures var graph' := Diversified(graph, edges, oracle);
      && Mirrored(graph')
      && DistinctIds(graph'[v]) && Sorted(graph'[v])
      && Ids(Cut(graph[v], v, edges, oracle)) <= Ids(graph'[v]) && graph[v][0].id in Ids(graph'[v])
  {
    var f, M := CutAll(graph, edges, oracle), seq(|graph|, _ => edges);
    var graph' := Diversified(graph, edges, oracle);
    CutAllGood(graph, edges, oracle);
    SymmetricIff(f, M, graph', oracle);
    forall w: nat, u: nat | Listed(f, w, u)
      ensures Edge(f, M, w, u)
    {
    }
    SymmetricList(f, M, v, oracle);
    CutCorrect(graph[v], v, edges, oracle);
    assert forall u :: u in Ids(f[v]) ==> Listed(f, v, u);
    assert f[v][0].id in Ids(f[v]);
  }

  lemma {:induction false} CutAllGood(graph: seq<seq<Neighbor>>, edges: nat, oracle: Oracle)
    requires Diversifiable(graph, edges)
    requires InGraph(graph)
    ensures var f := CutAll(graph, edges, oracle);
      && GoodLists(f, seq(|graph|, _ => edges))
      && forall i :: 0 <= i < |graph| ==> |f[i]| == edges && Measured(f[i], (w: nat) => oracle(i, w))
  {
    var f := CutAll(graph, edges, oracle);
    forall i | 0 <= i < |graph|
      ensures |f[i]| == edges && Measured(f[i], (w: nat) => oracle(i, w))
      ensures forall j :: 0 <= j < |f[i]| ==> f[i][j].id < |graph|
    {
      CutCorrect(graph[i], i, edges, oracle);
      CutInGraph(graph, i, edges, oracle);
    }
  }

  lemma {:induction false} CutInGraph(graph: seq<seq<Neighbor>>, i: nat, edges: nat, oracle: Oracle)
    requires Diversifiable(graph, edges) && InGraph(graph) && i < |graph|
    ensures forall j :: 0 <= j < |Cut(graph[i], i, edges, oracle)| ==> Cut(graph[i], i, edges, oracle)[j].id < |graph|
  {
    CutCorrect(graph[i], i, edges, oracle);
    var c := Cut(graph[i], i, edges, oracle);
    forall j | 0 <= j < |c|
      ensures c[j].id < |graph|
    {
      assert c[j].id in Ids(c);
      var k :| 0 <= k < Candidates(graph[i], edges) && graph[i][..Candidates(graph[i], edges)][k].id == c[j].id;
      assert graph[i][k].id == c[j].id;
    }
  }

  /** An entry for u stands in this list. */
  ghost predicate Lists(list: seq<Neighbor>, u: nat) {
    exists i :: 0 <= i < |list| && list[i].id == u
  }

  /**
   list is that of node v once every edge of the cut lists has its way back: nearest first, nodes at equal
   distance by their ids, and in it exactly the nodes that v kept and those that kept v.
   */
  ghost predicate BothWays(f: seq<seq<Neighbor>>, v: nat, oracle: Oracle, list: seq<Neighbor>)
    requires v < |f|
  {
    && (forall i :: 0 <= i < |list| ==> list[i].dist == oracle(v, list[i].id))
    && (forall i, j :: 0 <= i < j < |list| ==>
      list[i].dist < list[j].dist || (list[i].dist == list[j].dist && list[i].id < list[j].id))
    && forall u: nat :: Lists(list, u) <==> u < |f| && (Lists(f[v], u) || Lists(f[u], v))
  }

  /** The diversified graph: its edges are the kept ones, both ways. */
  lemma {:induction false} DiversifiedBothWays(graph: seq<seq<Neighbor>>, edges: nat, oracle: Oracle)
    requires Diversifiable(graph, edges) && InGraph(graph)
    requires forall a, b :: oracle(a, b) == oracle(b, a)
    ensures var f, graph' := CutAll(graph, edges, oracle), Diversified(graph, edges, oracle);
      && (forall v :: 0 <= v < |graph| ==> IsCut(graph[v], v, edges, oracle, f[v]))
      && forall v :: 0 <= v < |graph| ==> BothWays(f, v, oracle, graph'[v])
  {
    var f := CutAll(graph, edges, oracle);
    CutAllGood(graph, edges, oracle);
    AllCut(graph, f, edges, oracle);
    forall v | 0 <= v < |graph|
      ensures BothWays(f, v, oracle, Diversified(graph, edges, oracle)[v])
    {
      hide IsCut, Cut, CutAll;
      MutualList(f, seq(|graph|, _ => edges), v, edges, oracle);
    }
  }

  lemma {:induction false} MutualList(f: seq<seq<Neighbor>>, M: seq<nat>, v: nat, edges: nat, oracle: Oracle)
    requires GoodLists(f, M) && v < |f| && forall i :: 0 <= i < |f| ==> M[i] == |f[i]|
    requires forall i :: 0 <= i < |f| ==> Measured(f[i], (w: nat) => oracle(i, w))
    requires forall a, b :: oracle(a, b) == oracle(b, a)
    ensures BothWays(f, v, oracle, Symmetric(f, M, v))
  {
    hide Symmetric;
    var list := Symmetric(f, M, v);
    SymmetricList(f, M, v, oracle);
    forall u: nat
      ensures Lists(list, u) <==> u < |f| && (Lists(f[v], u) || Lists(f[u], v))
    {
      assert Lists(list, u) <==> u in Ids(list);
      assert Listed(f, v, u) <==> Lists(f[v], u);
    }
  }

  /** As DPG_diverse runs it: the lists are cut, then every edge gets its way back. */
  method Diversify(g: KGraph, oracle: Oracle, edges: nat)
    requires g.Valid() && Diversifiable(g.graph, edges) && InGraph(g.graph)
    modifies g
    ensures g.graph == Diversified(old(g.graph), edges, oracle)
    ensures |g.M| == |g.graph| == |old(g.graph)| && forall v :: 0 <= v < |g.graph| ==> g.M[v] == |g.graph[v]|
    ensures (forall a, b :: oracle(a, b) == oracle(b, a)) ==> exists f: seq<seq<Neighbor>> ::
      && |f| == |g.graph| && (forall v :: 0 <= v < |f| ==> IsCut(old(g.graph)[v], v, edges, oracle, f[v]))
      && forall v :: 0 <= v < |f| ==> BothWays(f, v, oracle, g.graph[v])
  {
    CutAllGood(g.graph, edges, oracle);
    if forall a, b :: oracle(a, b) == oracle(b, a) {
      DiversifiedBothWays(g.graph, edges, oracle);
    }
    hide IsCut, BothWays;
    g.DiversifyByCut(oracle, edges);
    assert g.graph == CutAll(old(g.graph), edges, oracle);
    assert g.M == seq(|g.graph|, _ => edges);
    g.AddBackwardEdges();
  }
}
