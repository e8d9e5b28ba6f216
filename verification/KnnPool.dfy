/**
 The sorted pool of neighbours shared by graph construction and search: insertion
 in place, and what repeated insertion keeps.
 */
module KnnPools {

  datatype Neighbor = Neighbor(id: nat, dist: real, flag: bool)

  /** Sorted by distance, the order the insertion relies on and keeps. */
  ghost predicate Sorted(s: seq<Neighbor>) {
    forall i, j :: 0 <= i <= j < |s| ==> s[i].dist <= s[j].dist
  }

  ghost predicate DistinctIds(s: seq<Neighbor>) {
    forall i, j :: 0 <= i < j < |s| ==> s[i].id != s[j].id
  }

  /** Where an entry at distance d goes: behind the last entry no farther than d. */
  function Rank(s: seq<Neighbor>, d: real): (p: nat)
    ensures p <= |s|
    ensures forall i :: p <= i < |s| ==> d < s[i].dist
    ensures p > 0 ==> s[p - 1].dist <= d
  {
    if s == [] || s[|s| - 1].dist <= d then |s| else Rank(s[..|s| - 1], d)
  }

  /** The pool with nn put in its place. */
  function Inserted(s: seq<Neighbor>, nn: Neighbor): seq<Neighbor> {
    var p := Rank(s, nn.dist);
    s[..p] + [nn] + s[p..]
  }

  /** nn is in the pool already, at the same distance. */
  ghost predicate Holds(s: seq<Neighbor>, nn: Neighbor) {
    exists i :: 0 <= i < |s| && s[i].dist == nn.dist && s[i].id == nn.id
  }

  lemma {:induction false} RankUnique(s: seq<Neighbor>, d: real, p: nat)
    requires p <= |s|
    requires forall i :: p <= i < |s| ==> d < s[i].dist
    requires p > 0 ==> s[p - 1].dist <= d
    ensures Rank(s, d) == p
  {
  }

  lemma {:induction false} RankPrefix(s: seq<Neighbor>, d: real)
    requires Sorted(s)
    ensures forall i :: 0 <= i < Rank(s, d) ==> s[i].dist <= d
  {
  }

  lemma {:induction false} InsertedAt(s: seq<Neighbor>, nn: Neighbor)
    ensures |Inserted(s, nn)| == |s| + 1
    ensures Inserted(s, nn)[Rank(s, nn.dist)] == nn
    ensures forall i :: 0 <= i < Rank(s, nn.dist) ==> Inserted(s, nn)[i] == s[i]
    ensures forall i :: Rank(s, nn.dist) < i <= |s| ==> Inserted(s, nn)[i] == s[i - 1]
  {
  }

  /**
   The insertion into a sorted list of K entries, in an array of at least K + 1:
   a held entry is reported by K + 1 and changes nothing.
   */
  method UpdateKnnList(addr: array<Neighbor>, K: nat, nn: Neighbor) returns (r: nat)
    requires K < addr.Length && Sorted(addr[..K])
    modifies addr
    ensures Holds(old(addr[..K]), nn) ==> r == K + 1 && addr[..] == old(addr[..])
    ensures !Holds(old(addr[..K]), nn) ==>
      r == Rank(old(addr[..K]), nn.dist) && addr[..K + 1] == Inserted(old(addr[..K]), nn)
    ensures addr[K + 1..] == old(addr[K + 1..])
  {
    var i := FindPlace(addr, K, nn.dist);
    RankUnique(addr[..K], nn.dist, i);
    var held := IsHeld(addr, K, i, nn);
    if held {
      return K + 1;
    }
    hide Holds, Sorted, Rank;
    ShiftIn(addr, K, i, nn);
    return i;
  }

  /** The search for the same id among the entries at the same distance, in front of place i. */
  method IsHeld(addr: array<Neighbor>, K: nat, i: nat, nn: Neighbor) returns (held: bool)
    requires i <= K <= addr.Length && Sorted(addr[..K])
    requires (forall j :: i <= j < K ==> nn.dist < addr[..K][j].dist) && (i > 0 ==> addr[..K][i - 1].dist <= nn.dist)
    ensures held <==> Holds(addr[..K], nn)
  {
    ghost var s := addr[..K];
    var l := i;
    while l > 0
      invariant 0 <= l <= i
      invariant forall j :: l <= j < i ==> s[j].dist == nn.dist && s[j].id != nn.id
    {
      var j := l - 1;
      if addr[j].dist < nn.dist {
        break;
      }
      assert s[j].dist <= s[i - 1].dist;
      if addr[j].id == nn.id {
        assert s[j].dist == nn.dist && s[j].id == nn.id;
        return true;
      }
      l := j;
    }
    assert l > 0 ==> forall j :: 0 <= j < l ==> s[j].dist <= s[l - 1].dist;
    return false;
  }

  /** The list after an update that takes a held entry for no news. */
  ghost function Updated(s: seq<Neighbor>, nn: Neighbor): seq<Neighbor> {
    if Holds(s, nn) then s else Inserted(s, nn)
  }

  /** An update keeps the ids distinct exactly when the new id is not held at another distance. */
  lemma {:induction false} DistinctIff(s: seq<Neighbor>, nn: Neighbor)
    requires Sorted(s) && DistinctIds(s)
    ensures DistinctIds(Updated(s, nn)) <==> forall i :: 0 <= i < |s| && s[i].id == nn.id ==> s[i].dist == nn.dist
  {
    if i :| 0 <= i < |s| && s[i].id == nn.id {
      if s[i].dist != nn.dist {
        var p, t := Rank(s, nn.dist), Inserted(s, nn);
        InsertedAt(s, nn);
        assert t[if i < p then i else i + 1].id == t[p].id;
      }
    } else {
      assert nn.id !in Ids(s);
      InsertedKeeps(s, nn);
    }
  }

  /** Node 5 is held at distance 1 and offered at distance 2: it is not reported but held twice. */
  lemma {:induction false} HeldTwice()
    ensures var one, two := Neighbor(5, 1.0, true), Neighbor(5, 2.0, true);
      !Holds([one], two) && Updated([one], two) == [one, two]
  {
    var one, two := Neighbor(5, 1.0, true), Neighbor(5, 2.0, true);
    RankUnique([one], 2.0, 1);
    assert [one][..1] + [two] + [one][1..] == [one, two];
  }

  /** The insertion of an entry that is not held, into a list that keeps at most cap entries. */
  method InsertNew(addr: array<Neighbor>, K: nat, cap: nat, nn: Neighbor) returns (r: nat, K': nat)
    requires K <= cap < addr.Length && Sorted(addr[..K]) && !Holds(addr[..K], nn)
    modifies addr
    ensures r == Rank(old(addr[..K]), nn.dist) <= K <= K' == Min(cap, K + 1)
    ensures |Inserted(old(addr[..K]), nn)| == K + 1
    ensures addr[..K'] == Inserted(old(addr[..K]), nn)[..K']
  {
    InsertedAt(addr[..K], nn);
    hide Inserted, Rank, Holds, Sorted;
    r := UpdateKnnList(addr, K, nn);
    K' := K;
    if K + 1 <= cap {
      K' := K + 1;
    }
    assert addr[..K'] == addr[..K + 1][..K'];
  }

  method FindPlace(addr: array<Neighbor>, K: nat, d: real) returns (i: nat)
    requires K <= addr.Length
    ensures i <= K
    ensures forall j :: i <= j < K ==> d < addr[j].dist
    ensures i > 0 ==> addr[i - 1].dist <= d
  {
    i := K;
    while i > 0
      invariant 0 <= i <= K
      invariant forall j :: i <= j < K ==> d < addr[j].dist
    {
      var j := i - 1;
      if addr[j].dist <= d {
        break;
      }
      i := j;
    }
  }

  method ShiftIn(addr: array<Neighbor>, K: nat, i: nat, nn: Neighbor)
    requires i <= K < addr.Length
    modifies addr
    ensures addr[..K + 1] == old(addr[..i]) + [nn] + old(addr[i..K])
    ensures addr[K + 1..] == old(addr[K + 1..])
  {
    ShiftUp(addr, K, i);
    addr[i] := nn;
  }

  /** Entries i to K - 1 move one place up. */
  method ShiftUp(addr: array<Neighbor>, K: nat, i: nat)
    requires i <= K < addr.Length
    modifies addr
    ensures forall k :: 0 <= k <= i || K < k < addr.Length ==> addr[k] == old(addr[k])
    ensures forall k :: i < k <= K ==> addr[k] == old(addr[k - 1])
  {
    var j := K;
    while j > i
      invariant i <= j <= K
      invariant forall k :: 0 <= k <= j || K < k < addr.Length ==> addr[k] == old(addr[k])
      invariant forall k :: j < k <= K ==> addr[k] == old(addr[k - 1])
    {
      addr[j] := addr[j - 1];
      j := j - 1;
    }
  }

  function Min(a: nat, b: nat): nat {
    if a < b then a else b
  }

  function Ids(s: seq<Neighbor>): set<nat> {
    set i | 0 <= i < |s| :: s[i].id
  }

  /** Every entry carries the distance of its id. */
  ghost predicate Measured(s: seq<Neighbor>, d: nat -> real) {
    forall i :: 0 <= i < |s| ==> s[i].dist == d(s[i].id)
  }

  /** The pool of capacity cap holds the nearest of the nodes seen. */
  ghost predicate Nearest(s: seq<Neighbor>, seen: set<nat>, d: nat -> real, cap: nat) {
    && Sorted(s) && DistinctIds(s) && Measured(s, d)
    && Ids(s) <= seen && |s| == Min(cap, |seen|)
    && forall v, i :: v in seen && v !in Ids(s) && 0 <= i < |s| ==> s[i].dist <= d(v)
  }

  lemma {:induction false} IdsSize(s: seq<Neighbor>)
    requires DistinctIds(s)
    ensures |Ids(s)| == |s|
  {
    if s != [] {
      var n := |s| - 1;
      IdsSize(s[..n]);
      assert Ids(s) == Ids(s[..n]) + {s[n].id};
      assert s[n].id !in Ids(s[..n]);
    }
  }

  /** Nothing was dropped from a pool as large as what was seen. */
  lemma {:induction false} NothingDropped(s: seq<Neighbor>, seen: set<nat>, d: nat -> real, cap: nat)
    requires Nearest(s, seen, d, cap) && |seen| <= cap
    ensures Ids(s) == seen
  {
    IdsSize(s);
    SubsetOfSameSize(Ids(s), seen);
  }

  lemma {:induction false} SubsetOfSameSize(a: set<nat>, b: set<nat>)
    requires a <= b && |a| == |b|
    ensures a == b
  {
    assert |b - a| == |b| - |a|;
  }

  lemma {:induction false} InsertedIds(s: seq<Neighbor>, nn: Neighbor)
    ensures Ids(Inserted(s, nn)) == Ids(s) + {nn.id}
  {
    var p, t := Rank(s, nn.dist), Inserted(s, nn);
    InsertedAt(s, nn);
    assert t[p].id == nn.id;
    forall i | 0 <= i < |s|
      ensures s[i].id in Ids(t)
    {
      assert s[i] == t[if i < p then i else i + 1];
    }
  }

  lemma {:induction false} InsertedKeeps(s: seq<Neighbor>, nn: Neighbor)
    requires Sorted(s) && DistinctIds(s) && nn.id !in Ids(s)
    ensures Sorted(Inserted(s, nn)) && DistinctIds(Inserted(s, nn))
  {
    var p, t := Rank(s, nn.dist), Inserted(s, nn);
    InsertedAt(s, nn);
    RankPrefix(s, nn.dist);
    forall i, j | 0 <= i < j < |t|
      ensures t[i].dist <= t[j].dist && t[i].id != t[j].id
    {
      assert i != p ==> t[i] == s[if i < p then i else i - 1] && t[i].id in Ids(s);
      assert j != p ==> t[j] == s[if j < p then j else j - 1] && t[j].id in Ids(s);
    }
  }

  lemma {:induction false} PrefixKeeps(s: seq<Neighbor>, m: nat, d: nat -> real)
    requires m <= |s| && Sorted(s) && DistinctIds(s)
    ensures Sorted(s[..m]) && DistinctIds(s[..m]) && Ids(s[..m]) <= Ids(s)
    ensures Measured(s, d) ==> Measured(s[..m], d)
    ensures forall j :: 0 <= j < m ==> s[j].id in Ids(s[..m])
  {
    forall j | 0 <= j < m
      ensures s[j].id in Ids(s[..m])
    {
      assert s[..m][j] == s[j];
    }
  }

  lemma {:induction false} InsertSelected(s: seq<Neighbor>, seen: set<nat>, d: nat -> real, cap: nat, nn: Neighbor)
    requires Nearest(s, seen, d, cap) && nn.id !in seen && nn.dist == d(nn.id)
    ensures !Holds(s, nn)
    ensures |Inserted(s, nn)| == |s| + 1
    ensures var u := Inserted(s, nn)[..Min(cap, |s| + 1)];
      Sorted(u) && DistinctIds(u) && Measured(u, d) && Ids(u) <= seen + {nn.id}
  {
    assert forall i :: 0 <= i < |s| ==> s[i].id in Ids(s);
    InsertedAt(s, nn);
    InsertedIds(s, nn);
    InsertedKeeps(s, nn);
    InsertedKeepsDistance(s, nn, d);
    PrefixKeeps(Inserted(s, nn), Min(cap, |s| + 1), d);
  }

  /** Inserting an unseen node and cutting back to the capacity keeps the pool nearest. */
  lemma {:induction false} InsertNearest(s: seq<Neighbor>, seen: set<nat>, d: nat -> real, cap: nat, nn: Neighbor)
    requires Nearest(s, seen, d, cap) && nn.id !in seen && nn.dist == d(nn.id)
    ensures !Holds(s, nn)
    ensures |Inserted(s, nn)| == |s| + 1
    ensures Nearest(Inserted(s, nn)[..Min(cap, |s| + 1)], seen + {nn.id}, d, cap)
  {
    InsertSelected(s, seen, d, cap, nn);
    var u, seen' := Inserted(s, nn)[..Min(cap, |s| + 1)], seen + {nn.id};
    assert |seen'| == |seen| + 1;
    forall v, i | v in seen' && v !in Ids(u) && 0 <= i < |u|
      ensures u[i].dist <= d(v)
    {
      DroppedFarther(s, seen, d, cap, nn, v, i);
    }
  }

  lemma {:induction false} DroppedFarther(s: seq<Neighbor>, seen: set<nat>, d: nat -> real, cap: nat, nn: Neighbor,
                                          v: nat, i: nat)
    requires Nearest(s, seen, d, cap) && nn.id !in seen && nn.dist == d(nn.id)
    requires v in seen + {nn.id} && v !in Ids(Inserted(s, nn)[..Min(cap, |s| + 1)])
    requires i < Min(cap, |s| + 1)
    ensures Inserted(s, nn)[i].dist <= d(v)
  {
    var t, m := Inserted(s, nn), Min(cap, |s| + 1);
    InsertedIds(s, nn);
    if v in Ids(t) {
      InsertedKeepsDistance(s, nn, d);
      InsertedAt(s, nn);
      InsertedKeeps(s, nn);
      var j :| 0 <= j < |t| && t[j].id == v;
      PrefixKeeps(t, m, d);
      assert t[i].dist <= t[j].dist;
    } else {
      FullPoolBounds(s, seen, d, cap, nn, v, i);
    }
  }

  lemma {:induction false} InsertedKeepsDistance(s: seq<Neighbor>, nn: Neighbor, d: nat -> real)
    requires Measured(s, d) && nn.dist == d(nn.id)
    ensures Measured(Inserted(s, nn), d)
  {
    InsertedAt(s, nn);
    var t := Inserted(s, nn);
    forall i | 0 <= i < |t|
      ensures t[i].dist == d(t[i].id)
    {
      var p := Rank(s, nn.dist);
      assert i != p ==> t[i] == s[if i < p then i else i - 1];
    }
  }

  lemma {:induction false} FullPoolBounds(s: seq<Neighbor>, seen: set<nat>, d: nat -> real, cap: nat, nn: Neighbor,
                                          v: nat, i: nat)
    requires Nearest(s, seen, d, cap) && v in seen && v !in Ids(s) && i < Min(cap, |s| + 1)
    ensures |Inserted(s, nn)| > i && Inserted(s, nn)[i].dist <= d(v)
  {
    if |s| < cap {
      NothingDropped(s, seen, d, cap);
    }
    InsertedAt(s, nn);
    var p := Rank(s, nn.dist);
    assert s[i].dist <= d(v);
    if p < i {
      assert s[i - 1].dist <= s[i].dist;
    }
  }

  /** Two pools of the nearest among the same nodes agree on their distances. */
  lemma {:induction false} NearestUnique(s: seq<Neighbor>, t: seq<Neighbor>, seen: set<nat>, d: nat -> real, cap: nat,
                                         i: nat)
    requires Nearest(s, seen, d, cap) && Nearest(t, seen, d, cap) && i < |s|
    ensures s[i].dist == t[i].dist
  {
    NearestNoFarther(s, t, seen, d, cap, i);
    NearestNoFarther(t, s, seen, d, cap, i);
  }

  /** Of more ids than another list has, one is missing there. */
  lemma {:induction false} MissingId(a: seq<Neighbor>, b: seq<Neighbor>) returns (v: nat)
    requires DistinctIds(a) && DistinctIds(b) && |b| < |a|
    ensures v in Ids(a) && v !in Ids(b)
  {
    IdsSize(a);
    IdsSize(b);
    assert Ids(a) <= Ids(b) ==> |Ids(b) - Ids(a)| == |b| - |a|;
    v :| v in Ids(a) && v !in Ids(b);
  }

  /** The i-th entry of a nearest pool is no farther than that of any other one. */
  lemma {:induction false} NearestNoFarther(s: seq<Neighbor>, t: seq<Neighbor>, seen: set<nat>, d: nat -> real,
                                            cap: nat, i: nat)
    requires Nearest(s, seen, d, cap) && Nearest(t, seen, d, cap) && i < |s|
    ensures s[i].dist <= t[i].dist
  {
    PrefixKeeps(t, i + 1, d);
    PrefixKeeps(s, i, d);
    var v := MissingId(t[..i + 1], s[..i]);
    var j :| 0 <= j < i + 1 && t[..i + 1][j].id == v;
    assert t[j].dist <= t[i].dist && t[j].id in Ids(t);
    if v in Ids(s) {
      var k :| 0 <= k < |s| && s[k].id == v;
      assert s[i].dist <= s[k].dist;
    }
  }

  /** The scanned ids that are kept, each put in its place in the order of the scan. */
  function Ranked(d: nat -> real, keep: nat -> bool, n: nat): seq<Neighbor> {
    if n == 0 then []
    else
      var before := Ranked(d, keep, n - 1);
      if keep(n - 1) then Inserted(before, Neighbor(n - 1, d(n - 1), true)) else before
  }

  predicate Closer(a: Neighbor, b: Neighbor) {
    a.dist < b.dist || (a.dist == b.dist && a.id < b.id)
  }

  /** Ranked is the list of kept ids in (distance, id) order, and the only such list. */
  lemma {:induction false} RankedCorrect(d: nat -> real, keep: nat -> bool, n: nat)
    ensures Sorted(Ranked(d, keep, n)) && Measured(Ranked(d, keep, n), d)
    ensures var r := Ranked(d, keep, n);
      forall i, j :: 0 <= i < j < |r| ==> r[i].dist < r[j].dist || (r[i].dist == r[j].dist && r[i].id < r[j].id)
    ensures forall v: nat :: v in Ids(Ranked(d, keep, n)) <==> v < n && keep(v)
    ensures forall i :: 0 <= i < |Ranked(d, keep, n)| ==> Ranked(d, keep, n)[i].flag
  {
    RankedInOrder(d, keep, n);
    var r := Ranked(d, keep, n);
    forall i, j | 0 <= i < j < |r|
      ensures r[i].dist < r[j].dist || (r[i].dist == r[j].dist && r[i].id < r[j].id)
    {
      assert Closer(r[i], r[j]);
    }
  }

  lemma {:induction false} RankedInOrder(d: nat -> real, keep: nat -> bool, n: nat)
    ensures Sorted(Ranked(d, keep, n)) && Measured(Ranked(d, keep, n), d)
    ensures forall i, j :: 0 <= i < j < |Ranked(d, keep, n)| ==> Closer(Ranked(d, keep, n)[i], Ranked(d, keep, n)[j])
    ensures forall v: nat :: v in Ids(Ranked(d, keep, n)) <==> v < n && keep(v)
    ensures forall i :: 0 <= i < |Ranked(d, keep, n)| ==> Ranked(d, keep, n)[i].flag
  {
    if n > 0 {
      RankedInOrder(d, keep, n - 1);
      if keep(n - 1) {
        var s, nn := Ranked(d, keep, n - 1), Neighbor(n - 1, d(n - 1), true);
        InsertedIds(s, nn);
        InsertedKeepsDistance(s, nn, d);
        NewestLast(s, nn);
        InsertedFlags(s, nn);
      }
    }
  }

  /**
   The K nearest of the ids below n that are kept, or all of them: nearest first and at equal distance the
   lesser id first, and no id left out comes before one of them.
   */
  ghost predicate NearestKept(d: nat -> real, keep: nat -> bool, n: nat, K: nat, s: seq<Neighbor>) {
    && |s| <= K && (forall i :: 0 <= i < |s| ==> s[i].id < n && keep(s[i].id) && s[i].dist == d(s[i].id))
    && (forall i, j :: 0 <= i < j < |s| ==>
      s[i].dist < s[j].dist || (s[i].dist == s[j].dist && s[i].id < s[j].id))
    && forall v: nat :: v < n && keep(v) ==>
      || v in Ids(s)
      || (|s| == K && forall i :: 0 <= i < K ==> s[i].dist < d(v) || (s[i].dist == d(v) && s[i].id < v))
  }

  lemma {:induction false} FirstRanked(d: nat -> real, keep: nat -> bool, n: nat, K: nat)
    ensures var r := Ranked(d, keep, n); NearestKept(d, keep, n, K, r[..Min(K, |r|)])
  {
    var r := Ranked(d, keep, n);
    var s := r[..Min(K, |r|)];
    RankedCorrect(d, keep, n);
    forall i | 0 <= i < |s|
      ensures s[i].id < n && keep(s[i].id)
    {
      assert r[i].id in Ids(r);
    }
    forall v: nat | v < n && keep(v) && v !in Ids(s)
      ensures |s| == K && forall i :: 0 <= i < K ==> s[i].dist < d(v) || (s[i].dist == d(v) && s[i].id < v)
    {
      var j :| 0 <= j < |r| && r[j].id == v;
      assert forall x :: 0 <= x < |s| ==> s[x].id in Ids(s) && s[x] == r[x];
      assert j >= |s|;
    }
  }

  /** A newest id goes behind every entry at its distance, so the order is by (distance, id). */
  lemma {:induction false} NewestLast(s: seq<Neighbor>, nn: Neighbor)
    requires Sorted(s) && forall i, j :: 0 <= i < j < |s| ==> Closer(s[i], s[j])
    requires forall v :: v in Ids(s) ==> v < nn.id
    ensures Sorted(Inserted(s, nn))
    ensures forall i, j :: 0 <= i < j < |Inserted(s, nn)| ==> Closer(Inserted(s, nn)[i], Inserted(s, nn)[j])
  {
    var p, t := Rank(s, nn.dist), Inserted(s, nn);
    InsertedAt(s, nn);
    RankPrefix(s, nn.dist);
    forall i, j | 0 <= i < j < |t|
      ensures Closer(t[i], t[j])
    {
      if i == p {
        assert t[j] == s[j - 1];
      } else if j == p {
        assert t[i] == s[i] && s[i].id in Ids(s);
      } else {
        assert t[i] == s[if i < p then i else i - 1] && t[j] == s[if j < p then j else j - 1];
      }
    }
  }

  lemma {:induction false} InsertedFlags(s: seq<Neighbor>, nn: Neighbor)
    requires nn.flag && forall i :: 0 <= i < |s| ==> s[i].flag
    ensures forall i :: 0 <= i < |Inserted(s, nn)| ==> Inserted(s, nn)[i].flag
  {
    InsertedAt(s, nn);
  }

  /** Cutting back to K entries after every insertion loses nothing of the first K. */
  lemma {:induction false} InsertTruncated(s: seq<Neighbor>, K: nat, nn: Neighbor)
    requires Sorted(s)
    ensures Sorted(s[..Min(K, |s|)])
    ensures Inserted(s[..Min(K, |s|)], nn)[..Min(K, |s| + 1)] == Inserted(s, nn)[..Min(K, |s| + 1)]
  {
    if K >= |s| {
      assert s[..|s|] == s;
    } else {
      RankPrefix(s, nn.dist);
      RankUnique(s[..K], nn.dist, Min(K, Rank(s, nn.dist)));
      forall i | 0 <= i < K
        ensures Inserted(s[..K], nn)[i] == Inserted(s, nn)[i]
      {
        InsertedBefore(s, K, nn, i);
      }
    }
  }

  lemma {:induction false} InsertedBefore(s: seq<Neighbor>, K: nat, nn: Neighbor, i: nat)
    requires i < K < |s| && Rank(s[..K], nn.dist) == Min(K, Rank(s, nn.dist))
    ensures |Inserted(s[..K], nn)| == K + 1 && |Inserted(s, nn)| == |s| + 1
    ensures Inserted(s[..K], nn)[i] == Inserted(s, nn)[i]
  {
    InsertedAt(s, nn);
    InsertedAt(s[..K], nn);
    if Rank(s, nn.dist) < i {
      assert s[..K][i - 1] == s[i - 1];
    }
  }

  /** An id is held only if it was scanned. */
  lemma {:induction false} UnscannedNotHeld(s: seq<Neighbor>, nn: Neighbor)
    requires forall v :: v in Ids(s) ==> v < nn.id
    ensures !Holds(s, nn)
  {
    assert forall i :: 0 <= i < |s| ==> s[i].id in Ids(s);
  }

  /**
   SearchOracle::search: exactly the first min(K, matches) points within
   epsilon, in (distance, id) order.
   */
  method SearchOracle(N: nat, oracle: nat -> real, K: nat, epsilon: real) returns (nns: array<Neighbor>, L: nat)
    ensures nns.Length == K + 1
    ensures var matches := Ranked(oracle, (k: nat) => oracle(k) <= epsilon, N);
      L == Min(K, |matches|) && nns[..L] == matches[..L]
    ensures L <= K && NearestKept(oracle, (k: nat) => oracle(k) <= epsilon, N, K, nns[..L])
  {
    FirstRanked(oracle, (k: nat) => oracle(k) <= epsilon, N, K);
    nns := new Neighbor[K + 1](_ => Neighbor(0, 0.0, false));
    ghost var keep := (k: nat) => oracle(k) <= epsilon;
    L := 0;
    var k := 0;
    while k < N
      invariant 0 <= k <= N
      invariant L == Min(K, |Ranked(oracle, keep, k)|)
      invariant nns[..L] == Ranked(oracle, keep, k)[..L]
    {
      var dist := oracle(k);
      if !(dist > epsilon) {
        L := KeepNearest(nns, L, K, Neighbor(k, dist, true), oracle, keep);
      }
      k := k + 1;
    }
  }

  /** One insertion of a scan in id order, into at most K kept entries. */
  method KeepNearest(nns: array<Neighbor>, L: nat, K: nat, nn: Neighbor, ghost d: nat -> real,
                     ghost keep: nat -> bool) returns (L': nat)
    requires nns.Length == K + 1 && nn.dist == d(nn.id) && nn.flag && keep(nn.id)
    requires L == Min(K, |Ranked(d, keep, nn.id)|) && nns[..L] == Ranked(d, keep, nn.id)[..L]
    modifies nns
    ensures L' == Min(K, |Ranked(d, keep, nn.id + 1)|) && nns[..L'] == Ranked(d, keep, nn.id + 1)[..L']
  {
    ghost var s := Ranked(d, keep, nn.id);
    RankedCorrect(d, keep, nn.id);
    InsertTruncated(s, K, nn);
    InsertedAt(s, nn);
    InsertedAt(s[..L], nn);
    PrefixIds(s, L);
    UnscannedNotHeld(s[..L], nn);
    hide Ranked, Inserted, Holds, Rank, Sorted;
    var _ := UpdateKnnList(nns, L, nn);
    L' := L;
    if L < K {
      L' := L + 1;
    }
    assert nns[..L'] == nns[..L + 1][..L'];
  }

  lemma {:induction false} PrefixIds(s: seq<Neighbor>, m: nat)
    requires m <= |s|
    ensures Ids(s[..m]) <= Ids(s)
  {
  }

  lemma {:induction false} RankedSkips(d: nat -> real, keep: nat -> bool, n: nat)
    ensures !keep(n) ==> Ranked(d, keep, n + 1) == Ranked(d, keep, n)
  {
  }

  /** Distances from point i. */
  ghost function DistancesOf(oracle: (nat, nat) -> real, i: nat): nat -> real {
    (v: nat) => oracle(i, v)
  }

  ghost function OtherThan(i: nat): nat -> bool {
    (v: nat) => v != i
  }

  /** LinearSearch: the K nearest of the other points, as far as there are K. */
  method LinearSearch(N: nat, oracle: (nat, nat) -> real, i: nat, K: nat) returns (pnns: seq<Neighbor>)
    ensures |pnns| == K
    ensures var others := Ranked(DistancesOf(oracle, i), OtherThan(i), N);
      && Min(K, |others|) <= K && pnns[..Min(K, |others|)] == others[..Min(K, |others|)]
      && NearestKept(DistancesOf(oracle, i), OtherThan(i), N, K, pnns[..Min(K, |others|)])
  {
    FirstRanked(DistancesOf(oracle, i), OtherThan(i), N, K);
    var nns := new Neighbor[K + 1](_ => Neighbor(0, 0.0, false));
    var k: nat := 0;
    var id := 0;
    StartFront(DistancesOf(oracle, i), OtherThan(i), K);
    hide Front;
    while id < N
      invariant 0 <= id <= N && k <= K && Front(nns[..k], DistancesOf(oracle, i), OtherThan(i), id, K)
    {
      k := LinearStep(nns, k, K, id, oracle, i);
      id := id + 1;
    }
    pnns := nns[..K];
    FrontIs(nns[..k], pnns, DistancesOf(oracle, i), OtherThan(i), N, K);
  }

  /** The first K of the kept ids below n. */
  ghost predicate Front(s: seq<Neighbor>, d: nat -> real, keep: nat -> bool, n: nat, K: nat) {
    s == Ranked(d, keep, n)[..Min(K, |Ranked(d, keep, n)|)]
  }

  lemma {:induction false} StartFront(d: nat -> real, keep: nat -> bool, K: nat)
    ensures Front([], d, keep, 0, K)
  {
  }

  lemma {:induction false} FrontIs(s: seq<Neighbor>, all: seq<Neighbor>, d: nat -> real, keep: nat -> bool, n: nat,
                                   K: nat)
    requires Front(s, d, keep, n, K) && |all| == K && |s| <= K && all[..|s|] == s
    ensures var r := Ranked(d, keep, n); all[..Min(K, |r|)] == r[..Min(K, |r|)]
  {
  }

  method LinearStep(nns: array<Neighbor>, k: nat, K: nat, id: nat, oracle: (nat, nat) -> real, i: nat) returns (k': nat)
    requires nns.Length == K + 1 && k <= K && Front(nns[..k], DistancesOf(oracle, i), OtherThan(i), id, K)
    modifies nns
    ensures k' <= K && Front(nns[..k'], DistancesOf(oracle, i), OtherThan(i), id + 1, K)
  {
    RankedSkips(DistancesOf(oracle, i), OtherThan(i), id);
    k' := k;
    if id != i {
      k' := KeepNearest(nns, k, K, Neighbor(id, oracle(i, id), true), DistancesOf(oracle, i), OtherThan(i));
    }
  }
}
