/**
 The hierarchical clustering tree: random, pairwise different centres, every point
 with its nearest centre, and the index array partitioned in place.
 */
module Clusterings {
  import opened Wrappers
  import opened DistinctSeqs

  type Metric = (int, int) -> nat

  /** A point has distance 0 to itself, as a Hamming distance has. */
  ghost predicate SelfZero(dist: Metric) {
    forall p :: dist(p, p) == 0
  }

  ghost predicate Permutation(vals: seq<int>, n: nat) {
    |vals| == n && Distinct(vals) && forall i :: 0 <= i < n ==> 0 <= vals[i] < n
  }

  /** Every position of a permutation is drawn. */
  lemma {:induction false} PermutationCovers(vals: seq<int>, n: nat, x: int)
    requires Permutation(vals, n) && 0 <= x < n
    ensures x in vals
  {
    var ids := seq(n, i => i);
    forall i | 0 <= i < n
      ensures vals[i] in ids
    {
      assert ids[vals[i]] == vals[i];
    }
    DistinctSubset(vals, ids);
    assert |multiset(vals)| == |multiset(ids)|;
    SubMultiset(multiset(vals), multiset(ids));
    assert ids[x] == x;
    assert x in multiset(ids);
  }

  lemma {:induction false} SubMultiset(a: multiset<int>, b: multiset<int>)
    requires a <= b && |a| == |b|
    ensures a == b
  {
    assert b == a + (b - a);
    assert |b - a| == 0;
  }

  /** Distinct random numbers below n, then -1. */
  class UniqueRandom {
    const vals: seq<int>
    var counter: nat

    ghost predicate Valid()
      reads this
    {
      counter <= |vals|
    }

    /** The shuffled values are given. */
    constructor (shuffled: seq<int>)
      ensures Valid() && vals == shuffled && counter == 0
    {
      vals := shuffled;
      counter := 0;
    }

    method Next() returns (r: int)
      requires Valid()
      modifies this
      ensures Valid()
      ensures old(counter) == |vals| ==> r == -1 && counter == old(counter)
      ensures old(counter) < |vals| ==> r == vals[old(counter)] && counter == old(counter) + 1
    {
      if counter == |vals| {
        return -1;
      }
      r := vals[counter];
      counter := counter + 1;
    }
  }

  /** The first of the centres nearest to p, among the first n. */
  function LabelAmong(dist: Metric, centers: seq<int>, p: int, n: nat): (l: nat)
    requires 0 < n <= |centers|
    ensures l < n
    ensures forall j :: 0 <= j < n ==> dist(p, centers[l]) <= dist(p, centers[j])
    ensures forall j :: 0 <= j < l ==> dist(p, centers[l]) < dist(p, centers[j])
  {
    if n == 1 then 0
    else
      var l := LabelAmong(dist, centers, p, n - 1);
      if dist(p, centers[l]) > dist(p, centers[n - 1]) then n - 1 else l
  }

  function Label(dist: Metric, centers: seq<int>, p: int): nat
    requires centers != []
  {
    LabelAmong(dist, centers, p, |centers|)
  }

  /** Pairwise at a nonzero distance. */
  ghost predicate Separated(dist: Metric, centers: seq<int>) {
    forall i, j :: 0 <= i < j < |centers| ==> dist(centers[j], centers[i]) > 0 && dist(centers[i], centers[j]) > 0
  }

  /** A separated centre is its own nearest centre. */
  lemma {:induction false} CenterLabelsItself(dist: Metric, centers: seq<int>, i: nat)
    requires SelfZero(dist) && Separated(dist, centers) && i < |centers|
    ensures Label(dist, centers, centers[i]) == i
  {
    var l := Label(dist, centers, centers[i]);
    assert dist(centers[i], centers[l]) <= dist(centers[i], centers[i]);
  }

  ghost predicate SymmetricMetric(dist: Metric) {
    forall p, q :: dist(p, q) == dist(q, p)
  }

  lemma Symmetry(dist: Metric, p: int, q: int)
    requires SymmetricMetric(dist)
    ensures dist(p, q) == dist(q, p)
  {
  }

  /** p coincides with one of the centres. */
  ghost predicate Covered(dist: Metric, centers: seq<int>, p: int) {
    exists j :: 0 <= j < |centers| && dist(p, centers[j]) == 0
  }

  /** The draws of r from position lo up to hi were all covered. */
  ghost predicate AllCovered(dist: Metric, centers: seq<int>, indices: seq<int>, vals: seq<int>, lo: nat, hi: nat)
    requires hi <= |vals| && forall i :: 0 <= i < |vals| ==> 0 <= vals[i] < |indices|
  {
    forall i :: lo <= i < hi ==> Covered(dist, centers, indices[vals[i]])
  }

  /** Of the first n draws those at these places became centres; every other one coincides with an earlier centre. */
  ghost predicate Drawn(dist: Metric, centers: seq<int>, indices: seq<int>, vals: seq<int>, places: seq<nat>, n: nat)
    requires forall i :: 0 <= i < |vals| ==> 0 <= vals[i] < |indices|
  {
    && n <= |vals| && |places| == |centers|
    && (forall i :: 0 <= i < |places| ==> places[i] < n && centers[i] == indices[vals[places[i]]])
    && (forall i, j :: 0 <= i < j < |places| ==> places[i] < places[j])
    && forall d :: 0 <= d < n && d !in places ==> CoveredBefore(dist, centers, places, indices[vals[d]], d)
  }

  /** p coincides with a centre drawn before place d. */
  ghost predicate CoveredBefore(dist: Metric, centers: seq<int>, places: seq<nat>, p: int, d: int) {
    exists j :: 0 <= j < |places| && j < |centers| && places[j] < d && dist(p, centers[j]) == 0
  }

  /** Further draws that coincide with centres change nothing. */
  lemma {:induction false} DrawnMore(dist: Metric, centers: seq<int>, indices: seq<int>, vals: seq<int>,
                                     places: seq<nat>, n: nat, m: nat)
    requires forall i :: 0 <= i < |vals| ==> 0 <= vals[i] < |indices|
    requires Drawn(dist, centers, indices, vals, places, n) && n <= m <= |vals|
    requires AllCovered(dist, centers, indices, vals, 0, m)
    ensures Drawn(dist, centers, indices, vals, places, m)
  {
    forall d | n <= d < m && d !in places
      ensures CoveredBefore(dist, centers, places, indices[vals[d]], d)
    {
      assert Covered(dist, centers, indices[vals[d]]);
      var j :| 0 <= j < |centers| && dist(indices[vals[d]], centers[j]) == 0;
      assert places[j] < n;
    }
  }

  lemma {:induction false} DrawnNext(dist: Metric, centers: seq<int>, indices: seq<int>, vals: seq<int>,
                                     places: seq<nat>, n: nat)
    requires forall i :: 0 <= i < |vals| ==> 0 <= vals[i] < |indices|
    requires Drawn(dist, centers, indices, vals, places, n) && n < |vals|
    ensures Drawn(dist, centers + [indices[vals[n]]], indices, vals, places + [n], n + 1)
  {
    var centers', places' := centers + [indices[vals[n]]], places + [n];
    assert n in places' by {
      assert places'[|places|] == n;
    }
    forall d | 0 <= d < n + 1 && d !in places'
      ensures CoveredBefore(dist, centers', places', indices[vals[d]], d)
    {
      assert d !in places && CoveredBefore(dist, centers, places, indices[vals[d]], d);
      var j :| 0 <= j < |places| && places[j] < d && dist(indices[vals[d]], centers[j]) == 0;
      assert places'[j] == places[j] && centers'[j] == centers[j];
    }
  }

  /**
   Up to k centres among the indices, pairwise different; fewer only when every
   index coincides with one of them.
   */
  method ChooseCenters(k: nat, indices: seq<int>, dist: Metric, shuffled: seq<int>) returns (centers: seq<int>)
    requires Permutation(shuffled, |indices|) && SelfZero(dist) && SymmetricMetric(dist)
    ensures |centers| <= k && Separated(dist, centers)
    ensures forall c :: c in centers ==> c in indices
    ensures |centers| < k ==> forall p :: p in indices ==> Covered(dist, centers, p)
    ensures exists places, n :: Drawn(dist, centers, indices, shuffled, places, n)
  {
    var r := new UniqueRandom(shuffled);
    ghost var places: seq<nat> := [];
    centers := [];
    var more := true;
    hide Choosing, Permutation, SelfZero, SymmetricMetric;
    NothingChosen(dist, indices, shuffled);
    while |centers| < k && more
      invariant r.Valid() && r.vals == shuffled && fresh(r) && |centers| <= k
      invariant Choosing(dist, indices, shuffled, centers, places, r.counter)
      invariant !more ==> r.counter == |shuffled|
      decreases k - |centers|, more
    {
      centers, places, more := AddCenter(r, indices, dist, centers, places);
    }
    Chosen(dist, indices, shuffled, centers, places, r.counter);
  }

  /** Between two choices, after n draws. */
  ghost predicate Choosing(dist: Metric, indices: seq<int>, vals: seq<int>, centers: seq<int>, places: seq<nat>, n: nat)
    requires Permutation(vals, |indices|)
  {
    && n <= |vals| && Separated(dist, centers) && (forall c :: c in centers ==> c in indices)
    && AllCovered(dist, centers, indices, vals, 0, n) && Drawn(dist, centers, indices, vals, places, n)
  }

  lemma NothingChosen(dist: Metric, indices: seq<int>, vals: seq<int>)
    requires Permutation(vals, |indices|)
    ensures Choosing(dist, indices, vals, [], [], 0)
  {
  }

  lemma {:induction false} Chosen(dist: Metric, indices: seq<int>, vals: seq<int>, centers: seq<int>,
                                  places: seq<nat>, n: nat)
    requires Permutation(vals, |indices|) && Choosing(dist, indices, vals, centers, places, n)
    ensures Separated(dist, centers) && (forall c :: c in centers ==> c in indices)
    ensures n == |vals| ==> forall p :: p in indices ==> Covered(dist, centers, p)
    ensures Drawn(dist, centers, indices, vals, places, n)
  {
    if n == |vals| {
      AllDrawn(dist, centers, indices, vals);
    }
  }

  lemma {:induction false} ChoosingNext(dist: Metric, indices: seq<int>, vals: seq<int>, centers: seq<int>,
                                        places: seq<nat>, n: nat, m: nat, c: int,
                                        end: nat)
    requires Permutation(vals, |indices|) && SelfZero(dist) && SymmetricMetric(dist)
    requires Choosing(dist, indices, vals, centers, places, n) && n <= m < |vals| && end == m + 1
    requires AllCovered(dist, centers, indices, vals, 0, m) && c == indices[vals[m]]
    requires forall j :: 0 <= j < |centers| ==> dist(c, centers[j]) > 0
    ensures Choosing(dist, indices, vals, centers + [c], places + [m], end)
  {
    hide Drawn, AllCovered;
    CenterAdded(dist, centers, indices, vals, m);
    DrawnMore(dist, centers, indices, vals, places, n, m);
    DrawnNext(dist, centers, indices, vals, places, m);
  }

  lemma ChoosingCovered(dist: Metric, indices: seq<int>, vals: seq<int>, centers: seq<int>, places: seq<nat>, n: nat)
    requires Permutation(vals, |indices|) && Choosing(dist, indices, vals, centers, places, n)
    ensures n <= |vals| && AllCovered(dist, centers, indices, vals, 0, n)
  {
  }

  lemma {:induction false} ChoosingEnds(dist: Metric, indices: seq<int>, vals: seq<int>, centers: seq<int>,
                                        places: seq<nat>, n: nat)
    requires Permutation(vals, |indices|) && Choosing(dist, indices, vals, centers, places, n)
    requires AllCovered(dist, centers, indices, vals, 0, |vals|)
    ensures Choosing(dist, indices, vals, centers, places, |vals|)
  {
    DrawnMore(dist, centers, indices, vals, places, n, |vals|);
  }

  /** One centre more, unless all draws coincide with centres. */
  method AddCenter(r: UniqueRandom, indices: seq<int>, dist: Metric, centers: seq<int>, ghost places: seq<nat>)
    returns (centers': seq<int>, ghost places': seq<nat>, more: bool)
    requires r.Valid() && Permutation(r.vals, |indices|) && SelfZero(dist) && SymmetricMetric(dist)
    requires Choosing(dist, indices, r.vals, centers, places, r.counter)
    modifies r
    ensures r.Valid() && Choosing(dist, indices, r.vals, centers', places', r.counter)
    ensures |centers'| == |centers| + (if more then 1 else 0) && (!more ==> r.counter == |r.vals|)
  {
    ChoosingCovered(dist, indices, r.vals, centers, places, r.counter);
    hide Choosing, AllCovered, Permutation, SelfZero, SymmetricMetric;
    ghost var n := r.counter;
    var c := NextCenter(r, indices, dist, centers);
    if c == None {
      ChoosingEnds(dist, indices, r.vals, centers, places, n);
      return centers, places, false;
    }
    ghost var m := r.counter - 1;
    ChoosingNext(dist, indices, r.vals, centers, places, n, m, c.value, r.counter);
    centers', places', more := centers + [c.value], places + [m], true;
  }

  lemma {:induction false} AllDrawn(dist: Metric, centers: seq<int>, indices: seq<int>, shuffled: seq<int>)
    requires Permutation(shuffled, |indices|) && AllCovered(dist, centers, indices, shuffled, 0, |shuffled|)
    ensures forall p :: p in indices ==> Covered(dist, centers, p)
  {
    forall p | p in indices
      ensures Covered(dist, centers, p)
    {
      var x :| 0 <= x < |indices| && indices[x] == p;
      PermutationCovers(shuffled, |indices|, x);
      var i :| 0 <= i < |shuffled| && shuffled[i] == x;
      assert Covered(dist, centers, indices[shuffled[i]]);
    }
  }

  lemma {:induction false} CenterAdded(dist: Metric, centers: seq<int>, indices: seq<int>, shuffled: seq<int>, n: nat)
    requires n < |shuffled| && Permutation(shuffled, |indices|) && AllCovered(dist, centers, indices, shuffled, 0, n)
    requires SelfZero(dist) && SymmetricMetric(dist) && Separated(dist, centers)
    requires forall j :: 0 <= j < |centers| ==> dist(indices[shuffled[n]], centers[j]) > 0
    ensures Separated(dist, centers + [indices[shuffled[n]]])
    ensures AllCovered(dist, centers + [indices[shuffled[n]]], indices, shuffled, 0, n + 1)
  {
    var c := indices[shuffled[n]];
    var centers' := centers + [c];
    forall j | 0 <= j < |centers|
      ensures dist(centers[j], c) > 0
    {
      Symmetry(dist, c, centers[j]);
    }
    forall i | 0 <= i < n + 1
      ensures Covered(dist, centers', indices[shuffled[i]])
    {
      if i < n {
        assert Covered(dist, centers, indices[shuffled[i]]);
        var j :| 0 <= j < |centers| && dist(indices[shuffled[i]], centers[j]) == 0;
        assert centers'[j] == centers[j];
      } else {
        assert centers'[|centers|] == c;
      }
    }
  }

  /** Draws until an index differs from all centres so far, or nothing is left to draw. */
  method NextCenter(r: UniqueRandom, indices: seq<int>, dist: Metric, centers: seq<int>) returns (c: Option<int>)
    requires r.Valid() && Permutation(r.vals, |indices|)
    requires AllCovered(dist, centers, indices, r.vals, 0, r.counter)
    modifies r
    ensures r.Valid()
    ensures c == None ==> r.counter == |r.vals| && AllCovered(dist, centers, indices, r.vals, 0, r.counter)
    ensures r.counter >= old(r.counter)
    ensures c.Some? ==> r.counter > old(r.counter) && c.value == indices[r.vals[r.counter - 1]]
    ensures c.Some? ==> AllCovered(dist, centers, indices, r.vals, 0, r.counter - 1)
    ensures c.Some? ==> forall j :: 0 <= j < |centers| ==> dist(c.value, centers[j]) > 0
  {
    c := None;
    while true
      invariant r.Valid() && AllCovered(dist, centers, indices, r.vals, 0, r.counter) && r.counter >= old(r.counter)
      decreases |r.vals| - r.counter
    {
      var rnd := r.Next();
      if rnd < 0 {
        return None;
      }
      var duplicate := Coincides(dist, indices[rnd], centers);
      if !duplicate {
        return Some(indices[rnd]);
      }
    }
  }

  method Coincides(dist: Metric, p: int, centers: seq<int>) returns (duplicate: bool)
    ensures duplicate == Covered(dist, centers, p)
  {
    duplicate := false;
    var j := 0;
    while j < |centers|
      invariant 0 <= j <= |centers|
      invariant duplicate <==> exists i :: 0 <= i < j && dist(p, centers[i]) == 0
    {
      if dist(p, centers[j]) == 0 {
        duplicate := true;
      }
      j := j + 1;
    }
  }

  /** labels[j] is the label of the j-th index of the range from lo. */
  ghost predicate Labelled(dist: Metric, centers: seq<int>, indices: seq<int>, lo: nat, labels: seq<int>)
    requires centers != []
  {
    && lo + |labels| <= |indices|
    && forall j :: 0 <= j < |labels| ==> labels[j] == Label(dist, centers, indices[lo + j])
  }

  method ComputeLabels(indices: array<int>, lo: nat, len: nat, centers: seq<int>,
                       dist: Metric) returns (labels: array<int>)
    requires lo + len <= indices.Length && centers != []
    ensures fresh(labels) && labels.Length == len && Labelled(dist, centers, indices[..], lo, labels[..])
  {
    labels := new int[len];
    var i := 0;
    while i < len
      invariant 0 <= i <= len
      invariant forall j :: 0 <= j < i ==> labels[j] == Label(dist, centers, indices[lo + j])
    {
      labels[i] := ComputeLabel(indices[lo + i], centers, dist);
      i := i + 1;
    }
  }

  /** The inner loop of computeLabels. */
  method ComputeLabel(p: int, centers: seq<int>, dist: Metric) returns (best: int)
    requires centers != []
    ensures best == Label(dist, centers, p)
  {
    var d := dist(p, centers[0]);
    best := 0;
    var j := 1;
    while j < |centers|
      invariant 1 <= j <= |centers| && best == LabelAmong(dist, centers, p, j) && d == dist(p, centers[best])
    {
      var newDist := dist(p, centers[j]);
      if d > newDist {
        best := j;
        d := newDist;
      }
      j := j + 1;
    }
  }

  /** Both arrays swap the entries of two positions. */
  method Swap(indices: array<int>, lo: nat, labels: array<int>, i: nat, j: nat)
    requires indices != labels && lo + labels.Length <= indices.Length && i < labels.Length && j < labels.Length
    modifies indices, labels
    ensures labels[..] == old(labels[..])[i := old(labels[j])][j := old(labels[i])]
    ensures indices[..] == old(indices[..])[lo + i := old(indices[lo + j])][lo + j := old(indices[lo + i])]
    ensures multiset(indices[lo..lo + labels.Length]) == multiset(old(indices[lo..lo + labels.Length]))
  {
    SwapInside(indices[lo..lo + labels.Length], i, j);
    indices[lo + i], indices[lo + j] := indices[lo + j], indices[lo + i];
    labels[i], labels[j] := labels[j], labels[i];
    ghost var s := old(indices[lo..lo + labels.Length]);
    assert indices[lo..lo + labels.Length] == s[i := s[j]][j := s[i]];
  }

  lemma SwapInside(s: seq<int>, i: nat, j: nat)
    requires i < |s| && j < |s|
    ensures multiset(s[i := s[j]][j := s[i]]) == multiset(s)
  {
  }

  /** Everything outside the range is as it was; the range holds the same points. */
  twostate predicate RangePermuted(indices: array<int>, lo: nat, hi: nat)
    requires lo <= hi <= indices.Length
    reads indices
  {
    && multiset(indices[lo..hi]) == multiset(old(indices[lo..hi]))
    && indices[..lo] == old(indices[..lo]) && indices[hi..] == old(indices[hi..])
  }

  /** Label i between start and end; up to j no more of it; smaller labels before start. */
  ghost predicate Grouping(labels: seq<int>, i: int, start: nat, end: nat, j: nat) {
    && start <= end <= |labels| && j <= |labels| && (end <= j || end == start)
    && (forall x :: 0 <= x < start ==> labels[x] < i)
    && (forall x :: start <= x < end ==> labels[x] == i)
    && (forall x :: end <= x < j ==> i < labels[x])
    && (forall x :: j <= x < |labels| && start <= x ==> i <= labels[x])
  }

  lemma GroupingSwap(labels: seq<int>, i: int, start: nat, end: nat, j: nat)
    requires Grouping(labels, i, start, end, j) && j < |labels| && labels[j] == i && end < |labels|
    ensures Grouping(labels[j := labels[end]][end := labels[j]], i, start, end + 1, j + 1)
    ensures labels[j := labels[end]][end := labels[j]][..start] == labels[..start]
  {
  }

  /** Swapping two positions of both arrays keeps the labels right. */
  lemma {:induction false} LabelledSwap(dist: Metric, centers: seq<int>, s: seq<int>, lo: nat, labels: seq<int>,
                                        j: nat, k: nat)
    requires centers != [] && Labelled(dist, centers, s, lo, labels) && j < |labels| && k < |labels|
    ensures Labelled(dist, centers, s[lo + j := s[lo + k]][lo + k := s[lo + j]], lo,
                     labels[j := labels[k]][k := labels[j]])
  {
  }

  /** The swap loop for label i: its points move behind those of the labels before it. */
  method GroupLabel(indices: array<int>, lo: nat, labels: array<int>, i: int, start: nat, dist: Metric,
                    centers: seq<int>)
    returns (end: nat)
    requires indices != labels && centers != [] && Labelled(dist, centers, indices[..], lo, labels[..])
    requires Grouping(labels[..], i, start, start, 0)
    modifies indices, labels
    ensures Labelled(dist, centers, indices[..], lo, labels[..]) && RangePermuted(indices, lo, lo + labels.Length)
    ensures labels[..start] == old(labels[..start]) && indices[..lo + start] == old(indices[..lo + start])
    ensures Grouping(labels[..], i, start, end, labels.Length)
  {
    end := start;
    var j := 0;
    while j < labels.Length
      invariant 0 <= j <= labels.Length && Grouping(labels[..], i, start, end, j)
      invariant Labelled(dist, centers, indices[..], lo, labels[..]) && RangePermuted(indices, lo, lo + labels.Length)
      invariant labels[..start] == old(labels[..start]) && indices[..lo + start] == old(indices[..lo + start])
    {
      end := GroupOne(indices, lo, labels, i, start, end, j, dist, centers);
      j := j + 1;
    }
  }

  /** One round of the swap loop. */
  method GroupOne(indices: array<int>, lo: nat, labels: array<int>, i: int, start: nat, end: nat, j: nat, dist: Metric,
                  centers: seq<int>)
    returns (end': nat)
    requires indices != labels && centers != [] && Labelled(dist, centers, indices[..], lo, labels[..])
    requires j < labels.Length && Grouping(labels[..], i, start, end, j)
    modifies indices, labels
    ensures Labelled(dist, centers, indices[..], lo, labels[..]) && RangePermuted(indices, lo, lo + labels.Length)
    ensures labels[..start] == old(labels[..start]) && indices[..lo + start] == old(indices[..lo + start])
    ensures Grouping(labels[..], i, start, end', j + 1)
  {
    end' := end;
    if labels[j] == i {
      MoveUp(indices, lo, labels, i, start, end, j, dist, centers);
      end' := end + 1;
    }
  }

  /** A point with label i joins the others. */
  method MoveUp(indices: array<int>, lo: nat, labels: array<int>, i: int, start: nat, end: nat, j: nat, dist: Metric,
                centers: seq<int>)
    requires indices != labels && centers != [] && Labelled(dist, centers, indices[..], lo, labels[..])
    requires j < labels.Length && Grouping(labels[..], i, start, end, j) && labels[..][j] == i
    modifies indices, labels
    ensures Labelled(dist, centers, indices[..], lo, labels[..]) && RangePermuted(indices, lo, lo + labels.Length)
    ensures labels[..start] == old(labels[..start]) && indices[..lo + start] == old(indices[..lo + start])
    ensures Grouping(labels[..], i, start, end + 1, j + 1)
  {
    GroupingSwap(labels[..], i, start, end, j);
    LabelledSwap(dist, centers, indices[..], lo, labels[..], j, end);
    SwapOutside(indices[..], lo, lo + labels.Length, lo + start, lo + j, lo + end);
    hide Labelled, Grouping;
    Swap(indices, lo, labels, j, end);
  }

  lemma SwapOutside(s: seq<int>, lo: nat, hi: nat, start: nat, x: nat, y: nat)
    requires lo <= start <= x < hi <= |s| && start <= y < hi
    ensures s[x := s[y]][y := s[x]][..start] == s[..start] && s[x := s[y]][y := s[x]][..lo] == s[..lo]
    ensures s[x := s[y]][y := s[x]][hi..] == s[hi..]
  {
  }

  /** A tree node: its pivot unless it is a root, its children, and its points if it is a leaf. */
  datatype Node = Node(pivot: Option<int>, childs: seq<Node>, points: seq<int>)

  /** The points of all leaves below a node. */
  ghost function Points(node: Node): multiset<int>
    decreases node, 1
  {
    if node.childs == [] then multiset(node.points) else AllPoints(node.childs)
  }

  ghost function AllPoints(nodes: seq<Node>): multiset<int>
    decreases nodes, 0
  {
    if nodes == [] then multiset{} else AllPoints(nodes[..|nodes| - 1]) + Points(nodes[|nodes| - 1])
  }

  function Pivots(nodes: seq<Node>): seq<Option<int>> {
    seq(|nodes|, i requires 0 <= i < |nodes| => nodes[i].pivot)
  }

  function Centers(centers: seq<int>): seq<Option<int>> {
    seq(|centers|, i requires 0 <= i < |centers| => Some(centers[i]))
  }

  /** The k-th child of a split by these centres holds its centre, and points that are nearest to it. */
  ghost predicate Cluster(dist: Metric, centers: seq<int>, k: nat, node: Node)
    requires centers != []
  {
    && k < |centers| && centers[k] in Points(node)
    && forall p :: p in Points(node) ==> Label(dist, centers, p) == k
  }

  /** Fewer places than centres were asked for. */
  ghost predicate FewPlaces(dist: Metric, branching: nat, points: seq<int>, centers: seq<int>) {
    |centers| < branching && forall p :: p in points ==> Covered(dist, centers, p)
  }

  /** The children of a node are the clusters of separated centres. */
  ghost predicate Split(dist: Metric, branching: nat, node: Node, centers: seq<int>) {
    && |centers| == |node.childs| == branching > 0 && Separated(dist, centers)
    && Pivots(node.childs) == Centers(centers)
    && forall k :: 0 <= k < branching ==> Cluster(dist, centers, k, node.childs[k])
  }

  /** The whole tree: leaves are small or cannot be split, all other nodes are split. */
  ghost predicate Clustered(dist: Metric, branching: nat, leafMax: int, node: Node)
    decreases node
  {
    if node.childs == [] then
      |node.points| < leafMax || exists centers: seq<int> :: FewPlaces(dist, branching, node.points, centers)
    else
      && |Points(node)| >= leafMax
      && (exists centers: seq<int> :: Split(dist, branching, node, centers))
      && forall k :: 0 <= k < |node.childs| ==> Clustered(dist, branching, leafMax, node.childs[k])
  }

  /** Shuffles are whatever rand() makes of them: one permutation per call and length. */
  class Shuffler {
    const shuffles: (nat, nat) -> seq<int>
    var calls: nat

    ghost predicate Valid()
    {
      forall c, n :: Permutation(shuffles(c, n), n)
    }

    constructor (shuffles: (nat, nat) -> seq<int>)
      requires forall c, n :: Permutation(shuffles(c, n), n)
      ensures Valid()
    {
      this.shuffles := shuffles;
      calls := 0;
    }

    method Shuffle(n: nat) returns (s: seq<int>)
      requires Valid()
      modifies this
      ensures Permutation(s, n)
    {
      s := shuffles(calls, n);
      calls := calls + 1;
    }
  }

  ghost predicate GoodMetric(dist: Metric) {
    SelfZero(dist) && SymmetricMetric(dist)
  }

  /** After grouping, the range of label i holds its centre and misses every other one. */
  lemma {:induction false} GroupHasCenter(dist: Metric, centers: seq<int>, indices: seq<int>, lo: nat, labels: seq<int>,
                                          i: nat, start: nat, end: nat)
    requires GoodMetric(dist) && Separated(dist, centers) && i < |centers| && |centers| >= 2
    requires Labelled(dist, centers, indices, lo, labels) && start <= end <= |labels|
    requires forall c :: c in centers ==> c in indices[lo..lo + |labels|]
    requires forall j :: 0 <= j < |labels| && labels[j] == i ==> start <= j < end
    requires forall j :: start <= j < end ==> labels[j] == i
    ensures 0 < end - start < |labels| && lo + end <= |indices| && centers[i] in indices[lo + start..lo + end]
  {
    var k := if i == 0 then 1 else 0;
    CenterLabelsItself(dist, centers, i);
    CenterLabelsItself(dist, centers, k);
    assert centers[i] in centers && centers[k] in centers;
    var x :| 0 <= x < |labels| && indices[lo..lo + |labels|][x] == centers[i];
    var y :| 0 <= y < |labels| && indices[lo..lo + |labels|][y] == centers[k];
    assert labels[x] == i && labels[y] == k;
    assert indices[lo + start..lo + end][x - start] == centers[i];
  }

  /** Points of a permuted part of a group keep its label. */
  lemma {:induction false} PermutedLabels(dist: Metric, centers: seq<int>, was: seq<int>, now: seq<int>, i: nat)
    requires centers != [] && multiset(was) == multiset(now)
    requires forall p :: p in was ==> Label(dist, centers, p) == i
    ensures forall p :: p in now ==> Label(dist, centers, p) == i
    ensures forall p :: p in multiset(was) ==> Label(dist, centers, p) == i
  {
    forall p | p in now
      ensures Label(dist, centers, p) == i
    {
      assert p in multiset(now);
    }
  }

  /** The parameters of an index. */
  datatype Params = Params(branching: nat, leafMax: int, dist: Metric)

  ghost predicate GoodParams(p: Params) {
    p.branching >= 2 && GoodMetric(p.dist)
  }

  /** The first children of a split: they hold the points of the first labels. */
  ghost predicate Built(p: Params, centers: seq<int>, childs: seq<Node>) {
    && |childs| <= |centers| == p.branching
    && forall k :: 0 <= k < |childs| ==>
         && childs[k].pivot == Some(centers[k]) && Cluster(p.dist, centers, k, childs[k])
         && Clustered(p.dist, p.branching, p.leafMax, childs[k])
  }

  lemma {:induction false} BuiltNext(p: Params, centers: seq<int>, childs: seq<Node>, child: Node)
    requires Built(p, centers, childs) && |childs| < |centers| && child.pivot == Some(centers[|childs|])
    requires Cluster(p.dist, centers, |childs|, child) && Clustered(p.dist, p.branching, p.leafMax, child)
    ensures Built(p, centers, childs + [child]) && AllPoints(childs + [child]) == AllPoints(childs) + Points(child)
  {
    assert (childs + [child])[..|childs|] == childs;
  }

  lemma {:induction false} BuiltSplit(p: Params, centers: seq<int>, node: Node)
    requires GoodParams(p) && Built(p, centers, node.childs) && |node.childs| == p.branching
    requires Separated(p.dist, centers) && |AllPoints(node.childs)| >= p.leafMax
    ensures Clustered(p.dist, p.branching, p.leafMax, node)
  {
    assert Pivots(node.childs) == Centers(centers);
    assert Split(p.dist, p.branching, node, centers);
  }

  /**
   The tree over a range of the index array: a leaf, or one child per centre.
   The range is permuted and its points are those of the leaves.
   */
  method ComputeClustering(indices: array<int>, lo: nat, hi: nat, p: Params, rng: Shuffler, pivot: Option<int>)
    returns (node: Node)
    requires lo <= hi <= indices.Length && GoodParams(p) && rng.Valid()
    modifies indices, rng
    ensures RangePermuted(indices, lo, hi)
    ensures Points(node) == multiset(old(indices[lo..hi])) && node.pivot == pivot
    ensures Clustered(p.dist, p.branching, p.leafMax, node)
    decreases hi - lo, 2
  {
    if hi - lo < p.leafMax {
      return Node(pivot, [], indices[lo..hi]);
    }
    var shuffled := rng.Shuffle(hi - lo);
    var centers := ChooseCenters(p.branching, indices[lo..hi], p.dist, shuffled);
    if |centers| < p.branching {
      assert FewPlaces(p.dist, p.branching, indices[lo..hi], centers);
      return Node(pivot, [], indices[lo..hi]);
    }
    var childs := BuildChildren(indices, lo, hi, p, rng, centers);
    node := Node(pivot, childs, []);
    BuiltSplit(p, centers, node);
  }

  /** The loop over the labels. */
  method BuildChildren(indices: array<int>, lo: nat, hi: nat, p: Params, rng: Shuffler, centers: seq<int>)
    returns (childs: seq<Node>)
    requires lo <= hi <= indices.Length && GoodParams(p) && rng.Valid()
    requires |centers| == p.branching && Separated(p.dist, centers)
    requires forall c :: c in centers ==> c in indices[lo..hi]
    modifies indices, rng
    ensures RangePermuted(indices, lo, hi)
    ensures |childs| == p.branching && Built(p, centers, childs)
    ensures AllPoints(childs) == multiset(old(indices[lo..hi]))
    decreases hi - lo, 1
  {
    var labels := ComputeLabels(indices, lo, hi - lo, centers, p.dist);
    childs := [];
    var mid: nat := lo;
    assert indices[lo..lo] == [];
    while |childs| < p.branching
      invariant lo <= mid <= hi && |childs| <= p.branching
      invariant Grouped(p, centers, indices[..], lo, labels[..], mid, childs)
      invariant RangePermuted(indices, lo, hi)
      decreases p.branching - |childs|
    {
      CentersStay(old(indices[lo..hi]), indices[lo..hi], centers);
      childs, mid := BuildChild(indices, lo, hi, p, rng, centers, labels, childs, mid);
    }
    GroupedAll(p, centers, indices[..], lo, labels[..], mid, childs);
  }

  lemma {:induction false} CentersStay(was: seq<int>, now: seq<int>, centers: seq<int>)
    requires multiset(was) == multiset(now) && forall c :: c in centers ==> c in was
    ensures forall c :: c in centers ==> c in now
  {
    forall c | c in centers
      ensures c in now
    {
      assert c in multiset(was);
      assert c in multiset(now);
    }
  }

  /** The points of the first labels are grouped up to mid and have become the children. */
  ghost predicate Grouped(p: Params, centers: seq<int>, indices: seq<int>, lo: nat, labels: seq<int>, mid: nat,
                          childs: seq<Node>) {
    && centers != [] && lo <= mid <= lo + |labels|
    && Labelled(p.dist, centers, indices, lo, labels)
    && (forall j :: 0 <= j < mid - lo ==> labels[j] < |childs|)
    && (forall j :: mid - lo <= j < |labels| ==> |childs| <= labels[j])
    && Built(p, centers, childs)
    && AllPoints(childs) == multiset(indices[lo..mid])
  }

  /** Once every label has its child, every position is grouped. */
  lemma {:induction false} GroupedAll(p: Params, centers: seq<int>, indices: seq<int>, lo: nat, labels: seq<int>,
                                      mid: nat, childs: seq<Node>)
    requires Grouped(p, centers, indices, lo, labels, mid, childs) && |childs| == |centers|
    ensures mid == lo + |labels|
  {
    if |labels| > 0 {
      var probe := labels[if mid - lo < |labels| then mid - lo else 0];
      assert probe < |centers|;
    }
  }

  /** One child: group its label, then build its tree over the group. */
  method BuildChild(indices: array<int>, lo: nat, hi: nat, p: Params, rng: Shuffler, centers: seq<int>,
                    labels: array<int>, childs: seq<Node>, mid: nat)
    returns (childs': seq<Node>, end: nat)
    requires lo <= mid <= hi <= indices.Length && GoodParams(p) && rng.Valid() && indices != labels
    requires labels.Length == hi - lo && |childs| < |centers| == p.branching && Separated(p.dist, centers)
    requires forall c :: c in centers ==> c in indices[lo..hi]
    requires Grouped(p, centers, indices[..], lo, labels[..], mid, childs)
    modifies indices, rng, labels
    ensures RangePermuted(indices, lo, hi)
    ensures |childs'| == |childs| + 1 && lo <= end <= hi
    ensures Grouped(p, centers, indices[..], lo, labels[..], end, childs')
    decreases hi - lo, 0
  {
    ghost var s0 := indices[..];
    end := PartLabel(indices, lo, hi, p, centers, labels, childs, mid);
    ghost var s1, lab := indices[..], labels[..];
    var child := ComputeClustering(indices, mid, end, p, rng, Some(centers[|childs|]));
    assert labels[..] == lab;
    PermutedInside(s0, s1, indices[..], lo, mid, end, hi);
    GroupedNext(p, centers, s1, indices[..], lo, lab, mid, end, childs, child);
    childs' := childs + [child];
  }

  /** The points of the next label stand between mid and end. */
  ghost predicate Parted(p: Params, centers: seq<int>, s: seq<int>, lo: nat, labels: seq<int>, mid: nat, end: nat,
                         childs: seq<Node>) {
    && |childs| < |centers| && lo <= mid < end <= lo + |labels| && Labelled(p.dist, centers, s, lo, labels)
    && Built(p, centers, childs) && AllPoints(childs) == multiset(s[lo..mid])
    && centers[|childs|] in s[mid..end]
    && (forall j :: 0 <= j < mid - lo ==> labels[j] < |childs|)
    && (forall j :: mid - lo <= j < end - lo ==> labels[j] == |childs|)
    && (forall j :: end - lo <= j < |labels| ==> |childs| < labels[j])
  }

  /** Group the next label; the group is not empty and not the whole range. */
  method PartLabel(indices: array<int>, lo: nat, hi: nat, p: Params, centers: seq<int>, labels: array<int>,
                   childs: seq<Node>, mid: nat)
    returns (end: nat)
    requires lo <= mid <= hi <= indices.Length && GoodParams(p) && indices != labels
    requires labels.Length == hi - lo && |childs| < |centers| == p.branching && Separated(p.dist, centers)
    requires forall c :: c in centers ==> c in indices[lo..hi]
    requires Grouped(p, centers, indices[..], lo, labels[..], mid, childs)
    modifies indices, labels
    ensures RangePermuted(indices, lo, hi)
    ensures mid < end <= hi && end - mid < hi - lo
    ensures Parted(p, centers, indices[..], lo, labels[..], mid, end, childs)
  {
    assert Grouping(labels[..], |childs|, mid - lo, mid - lo, 0);
    hide Parted, Labelled, Separated, Grouped, Grouping, GoodParams, Regrouped;
    ghost var s0, lab0 := indices[..], labels[..];
    end := GroupNext(indices, lo, mid, labels, |childs|, p.dist, centers);
    GroupParted(p, centers, s0, indices[..], lo, lab0, labels[..], mid, end, childs);
  }

  /** The range of a node regrouped, apart from its first groups. */
  ghost predicate Regrouped(s: seq<int>, t: seq<int>, lo: nat, mid: nat, lab0: seq<int>, lab: seq<int>) {
    && |s| == |t| && |lab0| == |lab| && lo <= mid <= lo + |lab| <= |s|
    && multiset(s[lo..lo + |lab|]) == multiset(t[lo..lo + |lab|]) && s[..mid] == t[..mid]
    && lab[..mid - lo] == lab0[..mid - lo]
  }

  method GroupNext(indices: array<int>, lo: nat, mid: nat, labels: array<int>, i: int, dist: Metric, centers: seq<int>)
    returns (end: nat)
    requires indices != labels && centers != [] && Labelled(dist, centers, indices[..], lo, labels[..])
    requires lo <= mid <= lo + labels.Length <= indices.Length && Grouping(labels[..], i, mid - lo, mid - lo, 0)
    modifies indices, labels
    ensures Labelled(dist, centers, indices[..], lo, labels[..]) && RangePermuted(indices, lo, lo + labels.Length)
    ensures Regrouped(old(indices[..]), indices[..], lo, mid, old(labels[..]), labels[..])
    ensures mid <= end <= lo + labels.Length && Grouping(labels[..], i, mid - lo, end - lo, labels.Length)
  {
    hide Labelled, Grouping;
    ghost var s, lab0, hi := indices[..], labels[..], lo + labels.Length;
    assert s[lo..hi] == indices[lo..hi] && s[..mid] == indices[..mid] && lab0[..mid - lo] == labels[..mid - lo];
    var e := GroupLabel(indices, lo, labels, i, mid - lo, dist, centers);
    end := lo + e;
    GroupingBounds(labels[..], i, mid - lo, e, labels.Length);
    ghost var t, lab := indices[..], labels[..];
    assert t[lo..hi] == indices[lo..hi] && t[..mid] == indices[..mid] && lab[..mid - lo] == labels[..mid - lo];
  }

  lemma GroupingBounds(labels: seq<int>, i: int, start: nat, end: nat, j: nat)
    requires Grouping(labels, i, start, end, j)
    ensures start <= end <= |labels|
  {
  }

  lemma {:induction false} GroupParted(p: Params, centers: seq<int>, s: seq<int>, t: seq<int>, lo: nat, lab0: seq<int>,
                                       lab: seq<int>, mid: nat, end: nat, childs: seq<Node>)
    requires |s| == |t| && |lab0| == |lab| && GoodParams(p) && |childs| < |centers| == p.branching
    requires Separated(p.dist, centers) && lo + |lab| <= |s| && lo <= mid <= end <= lo + |lab|
    requires Grouped(p, centers, s, lo, lab0, mid, childs) && Labelled(p.dist, centers, t, lo, lab)
    requires Regrouped(s, t, lo, mid, lab0, lab)
    requires forall c :: c in centers ==> c in s[lo..lo + |lab|]
    requires Grouping(lab, |childs|, mid - lo, end - lo, |lab|)
    ensures Parted(p, centers, t, lo, lab, mid, end, childs) && end - mid < |lab|
  {
    forall j | 0 <= j < mid - lo
      ensures lab[j] < |childs|
    {
      assert lab[j] == lab[..mid - lo][j] == lab0[..mid - lo][j] == lab0[j];
    }
    CentersStay(s[lo..lo + |lab|], t[lo..lo + |lab|], centers);
    GroupHasCenter(p.dist, centers, t, lo, lab, |childs|, mid - lo, end - lo);
    assert s[lo..mid] == s[..mid][lo..] == t[..mid][lo..] == t[lo..mid];
  }

  /** Grouping a label and building its child leaves one group more. */
  lemma {:induction false} GroupedNext(p: Params, centers: seq<int>, s: seq<int>, t: seq<int>, lo: nat,
                                       labels: seq<int>,
                                       mid: nat, end: nat, childs: seq<Node>, child: Node)
    requires |s| == |t| && Parted(p, centers, s, lo, labels, mid, end, childs)
    requires t[..mid] == s[..mid] && t[end..] == s[end..]
    requires multiset(t[mid..end]) == multiset(s[mid..end]) == Points(child)
    requires child.pivot == Some(centers[|childs|]) && Clustered(p.dist, p.branching, p.leafMax, child)
    ensures Grouped(p, centers, t, lo, labels, end, childs + [child])
  {
    ChildFits(p, centers, s, t, lo, labels, mid, end, childs, child);
    BuiltNext(p, centers, childs, child);
    SplitAt(s, t, lo, mid, end);
  }

  lemma {:induction false} SplitAt(s: seq<int>, t: seq<int>, lo: nat, mid: nat, end: nat)
    requires |s| == |t| && lo <= mid <= end <= |s| && t[..mid] == s[..mid]
    ensures multiset(t[lo..end]) == multiset(s[lo..mid]) + multiset(t[mid..end])
  {
    assert s[lo..mid] == s[..mid][lo..] == t[lo..mid];
    assert t[lo..end] == s[lo..mid] + t[mid..end];
  }

  lemma {:induction false} ChildFits(p: Params, centers: seq<int>, s: seq<int>, t: seq<int>, lo: nat, labels: seq<int>,
                                     mid: nat, end: nat, childs: seq<Node>, child: Node)
    requires |s| == |t| && Parted(p, centers, s, lo, labels, mid, end, childs)
    requires t[..mid] == s[..mid] && t[end..] == s[end..]
    requires multiset(t[mid..end]) == multiset(s[mid..end]) == Points(child)
    ensures Cluster(p.dist, centers, |childs|, child) && Labelled(p.dist, centers, t, lo, labels)
  {
    GroupLabels(p.dist, centers, s, lo, labels, mid, end, |childs|);
    PermutedLabels(p.dist, centers, s[mid..end], t[mid..end], |childs|);
    assert centers[|childs|] in multiset(s[mid..end]);
    LabelsStay(p.dist, centers, s, t, lo, labels, mid, end, |childs|);
  }

  lemma {:induction false} GroupLabels(dist: Metric, centers: seq<int>, s: seq<int>, lo: nat, labels: seq<int>,
                                       mid: nat, end: nat, i: nat)
    requires centers != [] && Labelled(dist, centers, s, lo, labels) && lo <= mid <= end <= lo + |labels|
    requires forall j :: mid - lo <= j < end - lo ==> labels[j] == i
    ensures forall x :: x in s[mid..end] ==> Label(dist, centers, x) == i
  {
    forall x | x in s[mid..end]
      ensures Label(dist, centers, x) == i
    {
      var j :| 0 <= j < end - mid && s[mid..end][j] == x;
      var k := mid - lo + j;
      assert labels[k] == Label(dist, centers, s[lo + k]);
    }
  }

  lemma {:induction false} LabelsStay(dist: Metric, centers: seq<int>, s: seq<int>, t: seq<int>, lo: nat,
                                      labels: seq<int>,
                                      mid: nat, end: nat, i: nat)
    requires centers != [] && Labelled(dist, centers, s, lo, labels) && |s| == |t| && lo <= mid <= end <= lo + |labels|
    requires t[..mid] == s[..mid] && t[end..] == s[end..]
    requires forall j :: mid - lo <= j < end - lo ==> labels[j] == i
    requires forall x :: x in t[mid..end] ==> Label(dist, centers, x) == i
    ensures Labelled(dist, centers, t, lo, labels)
  {
    forall j | 0 <= j < |labels|
      ensures labels[j] == Label(dist, centers, t[lo + j])
    {
      var x := lo + j;
      if x < mid {
        assert t[x] == t[..mid][x] == s[x];
      } else if x < end {
        assert t[x] == t[mid..end][x - mid];
      } else {
        assert t[x] == t[end..][x - end] == s[x];
      }
    }
  }

  /** Permuting an outer range and then an inner one permutes the outer one. */
  lemma {:induction false} PermutedInside(r: seq<int>, s: seq<int>, t: seq<int>, lo: nat, mid: nat, end: nat, hi: nat)
    requires |r| == |s| == |t| && lo <= mid <= end <= hi <= |s|
    requires multiset(s[lo..hi]) == multiset(r[lo..hi]) && s[..lo] == r[..lo] && s[hi..] == r[hi..]
    requires t[..mid] == s[..mid] && t[end..] == s[end..] && multiset(t[mid..end]) == multiset(s[mid..end])
    ensures multiset(t[lo..hi]) == multiset(r[lo..hi]) && t[..lo] == r[..lo] && t[hi..] == r[hi..]
  {
    var a, c := s[lo..mid], s[end..hi];
    assert a == s[..mid][lo..] == t[lo..mid];
    assert c == s[end..][..hi - end] == t[end..hi];
    assert s[lo..hi] == a + s[mid..end] + c;
    assert t[lo..hi] == a + t[mid..end] + c;
    assert t[..lo] == t[..mid][..lo] == s[..lo];
    assert t[hi..] == t[end..][hi - end..] == s[hi..];
  }

  /** The points of a data set, each once. */
  ghost predicate EachOnce(all: multiset<int>, size: nat) {
    |all| == size && forall p :: all[p] == if 0 <= p < size then 1 else 0
  }

  lemma {:induction false} IdentityEachOnce(s: seq<int>)
    requires forall i :: 0 <= i < |s| ==> s[i] == i
    ensures EachOnce(multiset(s), |s|)
  {
    forall p
      ensures multiset(s)[p] == if 0 <= p < |s| then 1 else 0
    {
      DistinctMultiplicity(s, p);
      if 0 <= p < |s| {
        assert s[p] == p;
      }
    }
  }

  /** A tree over all points of the data set, built as asked for. */
  ghost predicate GoodTree(p: Params, size: nat, root: Node) {
    root.pivot == None && EachOnce(Points(root), size) && Clustered(p.dist, p.branching, p.leafMax, root)
  }

  /** No tree is built with a branching factor below 2. */
  method BuildIndex(size: nat, trees: nat, p: Params, rng: Shuffler) returns (roots: Option<seq<Node>>)
    requires GoodMetric(p.dist) && rng.Valid()
    modifies rng
    ensures roots.Some? <==> p.branching >= 2
    ensures roots.Some? ==> |roots.value| == trees
    ensures roots.Some? ==> forall i :: 0 <= i < trees ==> GoodTree(p, size, roots.value[i])
  {
    if p.branching < 2 {
      return None;
    }
    var indices := new int[size];
    var r: seq<Node> := [];
    while |r| < trees
      invariant |r| <= trees && forall i :: 0 <= i < |r| ==> GoodTree(p, size, r[i])
    {
      var root := BuildTree(indices, p, rng);
      r := r + [root];
    }
    roots := Some(r);
  }

  method BuildTree(indices: array<int>, p: Params, rng: Shuffler) returns (root: Node)
    requires GoodParams(p) && rng.Valid()
    modifies indices, rng
    ensures GoodTree(p, indices.Length, root)
  {
    var j := 0;
    while j < indices.Length
      invariant 0 <= j <= indices.Length && forall i :: 0 <= i < j ==> indices[i] == i
    {
      indices[j] := j;
      j := j + 1;
    }
    assert indices[0..indices.Length] == indices[..];
    IdentityEachOnce(indices[..]);
    root := ComputeClustering(indices, 0, indices.Length, p, rng, None);
  }
}
