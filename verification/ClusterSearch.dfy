/**
 Best-bin-first search in one clustering tree: a queue of pending branches, a bounded
 result set and a set of checked points. Every point of the tree is pending, checked
 or given up, and points are given up only with a full result and the budget spent.
 */
module ClusterSearches {
  import opened Wrappers
  import opened DistinctSeqs
  import opened Clusterings
  import opened Selections

  const MAX_DIST: int := 0x7fff_ffff

  /** A point with its distance, which is compared first. */
  datatype Hit = Hit(dist: int, index: int)

  function Key(hit: Hit): int {
    hit.dist
  }

  /** The order of distance and index. */
  predicate NotAfter(x: Hit, y: Hit) {
    x.dist < y.dist || (x.dist == y.dist && x.index <= y.index)
  }

  /** Only points nearer than the greatest int are results. */
  ghost predicate AllTaken(hits: seq<Hit>) {
    forall x :: x in hits ==> x.dist < MAX_DIST
  }

  /** The results kept: the nearest ones, as many as fit. */
  class ResultSet {
    const capacity: nat
    var worstDist: int
    var distIndex: seq<Hit>
    var isFull: bool
    ghost var offered: multiset<Hit>
    ghost var dropped: multiset<Hit>

    ghost predicate Valid()
      reads this
    {
      && KeepsSmallest(Key, multiset(distIndex), dropped, offered, capacity)
      && isFull == (|distIndex| == capacity)
      && AllTaken(distIndex) && worstDist <= MAX_DIST && (!isFull ==> worstDist == MAX_DIST)
      && (isFull ==> forall x :: x in distIndex ==> x.dist <= worstDist)
      && (isFull ==> exists x :: x in distIndex && x.dist == worstDist)
    }

    constructor (capacity: nat)
      requires capacity > 0
      ensures Valid() && this.capacity == capacity && offered == multiset{} && distIndex == [] && !isFull
    {
      this.capacity := capacity;
      worstDist := MAX_DIST;
      distIndex := [];
      isFull := false;
      offered, dropped := multiset{}, multiset{};
    }

    /** The farthest result, the one with the greater index among equally far ones. */
    method Farthest() returns (k: nat)
      requires |distIndex| > 0
      ensures k < |distIndex| && forall x :: x in distIndex ==> NotAfter(x, distIndex[k])
    {
      k := 0;
      var i := 1;
      while i < |distIndex|
        invariant 1 <= i <= |distIndex| && k < i
        invariant forall j :: 0 <= j < i ==> NotAfter(distIndex[j], distIndex[k])
      {
        if !NotAfter(distIndex[i], distIndex[k]) {
          k := i;
        }
        i := i + 1;
      }
    }

    /** The farthest result is taken out. */
    method PopFarthest() returns (ghost max: Hit)
      requires |distIndex| > 0
      modifies this`distIndex
      ensures max in old(distIndex) && forall x :: x in old(distIndex) ==> NotAfter(x, max)
      ensures multiset(old(distIndex)) == multiset(distIndex) + multiset{max} && |distIndex| == |old(distIndex)| - 1
      ensures forall x :: x in distIndex ==> x in old(distIndex)
    {
      var k := Farthest();
      max := distIndex[k];
      assert distIndex == distIndex[..k] + [distIndex[k]] + distIndex[k + 1..];
      distIndex := distIndex[..k] + distIndex[k + 1..];
    }

    /** A point nearer than the worst result of a full set replaces it; one at the greatest int is never taken. */
    method AddPoint(dist: int, index: int)
      requires Valid()
      modifies this
      ensures Valid() && (old(isFull) ==> isFull)
      ensures offered == if dist < MAX_DIST then old(offered) + multiset{Hit(dist, index)} else old(offered)
      ensures dist >= MAX_DIST ==> distIndex == old(distIndex) && isFull == old(isFull)
    {
      var hit := Hit(dist, index);
      if dist >= worstDist {
        if dist >= MAX_DIST {
          return;
        }
        DropOffered(Key, multiset(distIndex), dropped, offered, capacity, hit);
        dropped, offered := dropped + multiset{hit}, offered + multiset{hit};
        return;
      }
      MakeRoom(hit);
      PushBack(hit);
    }

    /** The results in the order they are stored in. */
    method Copy() returns (indices: seq<int>, dists: seq<int>)
      ensures Copied(distIndex, indices, dists)
    {
      indices, dists := [], [];
      while |indices| < |distIndex|
        invariant |indices| == |dists| <= |distIndex| && Copied(distIndex[..|indices|], indices, dists)
      {
        indices, dists := indices + [distIndex[|indices|].index], dists + [distIndex[|indices|].dist];
      }
      assert distIndex[..|distIndex|] == distIndex;
    }

    ghost predicate Room(hit: Hit)
      reads this
    {
      && hit.dist < MAX_DIST && AllTaken(distIndex)
      && |distIndex| < capacity && offered[hit] > 0
      && KeepsSmallest(Key, multiset(distIndex) + multiset{hit}, dropped, offered, capacity)
      && (!isFull ==> worstDist == MAX_DIST) && (isFull ==> |distIndex| == capacity - 1)
    }

    method MakeRoom(hit: Hit)
      requires Valid() && hit.dist < worstDist
      modifies this`distIndex, this`offered, this`dropped
      ensures Room(hit) && offered == old(offered) + multiset{hit}
    {
      if |distIndex| == capacity {
        ghost var max := PopFarthest();
        DropGreatest(Key, multiset(old(distIndex)), dropped, offered, capacity, multiset(distIndex), max, hit);
        dropped := dropped + multiset{max};
      } else {
        KeepOffered(Key, multiset(distIndex), dropped, offered, capacity, hit);
      }
      offered := offered + multiset{hit};
    }

    method PushBack(hit: Hit)
      requires Room(hit)
      modifies this`distIndex, this`isFull, this`worstDist
      ensures Valid()
      ensures old(isFull) ==> isFull
    {
      distIndex := distIndex + [hit];
      if |distIndex| == capacity {
        isFull := true;
        var k := Farthest();
        worstDist := distIndex[k].dist;
      }
    }
  }

  /** A subtree still to be searched, with the distance to its pivot. */
  datatype Branch = Branch(node: Node, mindist: int)

  /** A queue that ignores what is inserted when it is full. */
  class Heap {
    const length: int
    var heap: seq<Branch>

    constructor (size: int)
      ensures length == size && heap == []
    {
      length := size;
      heap := [];
    }

    method Insert(value: Branch)
      modifies this
      ensures heap == if |old(heap)| == length then old(heap) else old(heap) + [value]
    {
      if |heap| == length {
        return;
      }
      heap := heap + [value];
    }

    /** Some branch of least distance. */
    method PopMin() returns (ok: bool, value: Option<Branch>, ghost k: nat)
      modifies this
      ensures ok == (old(heap) != []) && (!ok ==> heap == [])
      ensures ok ==> k < |old(heap)| && value == Some(old(heap)[k]) && heap == old(heap)[..k] + old(heap)[k + 1..]
      ensures ok ==> forall i :: 0 <= i < |old(heap)| ==> old(heap)[k].mindist <= old(heap)[i].mindist
    {
      k := 0;
      if heap == [] {
        return false, None, k;
      }
      var m := 0;
      var i := 1;
      while i < |heap|
        invariant 1 <= i <= |heap| && 0 <= m < i
        invariant forall j :: 0 <= j < i ==> heap[m].mindist <= heap[j].mindist
      {
        if heap[i].mindist < heap[m].mindist {
          m := i;
        }
        i := i + 1;
      }
      ok, value, k := true, Some(heap[m]), m;
      heap := heap[..m] + heap[m + 1..];
    }
  }

  /** The points below pending branches. */
  ghost function Pending(heap: seq<Branch>): multiset<int> {
    if heap == [] then multiset{} else Pending(heap[..|heap| - 1]) + Points(heap[|heap| - 1].node)
  }

  lemma {:induction false} PendingPush(heap: seq<Branch>, b: Branch)
    ensures Pending(heap + [b]) == Pending(heap) + Points(b.node)
  {
    assert (heap + [b])[..|heap|] == heap;
  }

  lemma {:induction false} PendingRemove(heap: seq<Branch>, k: nat)
    requires k < |heap|
    ensures Pending(heap) == Pending(heap[..k] + heap[k + 1..]) + Points(heap[k].node)
  {
    hide Points;
    var front, last := heap[..|heap| - 1], heap[|heap| - 1];
    assert heap == front + [last];
    if k == |front| {
      assert heap[..k] + heap[k + 1..] == front;
    } else {
      PendingRemove(front, k);
      PendingPush(front[..k] + front[k + 1..], last);
      assert heap[..k] + heap[k + 1..] == (front[..k] + front[k + 1..]) + [last];
    }
  }

  /** Inner nodes have as many children as asked for, all with points and a pivot. */
  ghost predicate Bushy(branching: nat, node: Node)
    decreases node, 0
  {
    node.childs == []
    || (|node.childs| == branching && forall k :: 0 <= k < |node.childs| ==> Child(branching, node.childs[k]))
  }

  ghost predicate Child(branching: nat, node: Node)
    decreases node, 1
  {
    node.pivot.Some? && Points(node) != multiset{} && Bushy(branching, node)
  }

  lemma {:induction false} ClusteredBushy(dist: Metric, branching: nat, leafMax: int, node: Node)
    requires Clustered(dist, branching, leafMax, node)
    ensures Bushy(branching, node)
    decreases node
  {
    if node.childs != [] {
      var centers: seq<int> :| Split(dist, branching, node, centers);
      forall k | 0 <= k < |node.childs|
        ensures Child(branching, node.childs[k])
      {
        ClusteredBushy(dist, branching, leafMax, node.childs[k]);
        assert Cluster(dist, centers, k, node.childs[k]);
        assert Pivots(node.childs)[k] == Centers(centers)[k];
      }
    }
  }

  ghost predicate AllBushy(branching: nat, heap: seq<Branch>) {
    forall i :: 0 <= i < |heap| ==> Points(heap[i].node) != multiset{} && Bushy(branching, heap[i].node)
  }

  /** Pending branches have disjoint subtrees, so there are no more of them than points. */
  lemma {:induction false} PendingBound(branching: nat, heap: seq<Branch>)
    requires AllBushy(branching, heap)
    ensures |heap| <= |Pending(heap)|
  {
    if heap != [] {
      PendingBound(branching, heap[..|heap| - 1]);
      assert |Points(heap[|heap| - 1].node)| > 0;
    }
  }

  /** One entry per checked point, with its distance to the query. */
  ghost predicate Recorded(offered: multiset<Hit>, qd: int -> int, checked: set<int>) {
    && |offered| == |checked|
    && forall x: Hit :: offered[x] == if x.index in checked && x.dist == qd(x.index) then 1 else 0
  }

  /** Every point is pending, about to be searched, checked, or given up. */
  ghost predicate Accounted(heap: seq<Branch>, extra: multiset<int>, checked: set<int>, lost: multiset<int>,
                            all: multiset<int>) {
    Pending(heap) + extra + multiset(checked) + lost == all
  }

  /** The state of one query. */
  class Search {
    const heap: Heap
    const result: ResultSet
    const qd: int -> int  // distance of a point to the query
    const maxChecks: int
    const branching: nat
    const size: nat
    var checks: int
    var checked: set<int>
    ghost var lost: multiset<int>
    ghost const all: multiset<int>

    constructor (qd: int -> int, knn: nat, maxChecks: int, branching: nat, size: nat, ghost all: multiset<int>)
      requires knn > 0 && branching > 0 && EachOnce(all, size) && forall p :: 0 <= p < size ==> qd(p) < MAX_DIST
      ensures fresh(heap) && fresh(result) && result.capacity == knn && heap.heap == [] && Valid(all)
      ensures this.qd == qd && this.maxChecks == maxChecks && this.branching == branching && this.size == size
      ensures this.all == all && checked == {}
    {
      heap := new Heap(size);
      result := new ResultSet(knn);
      this.qd, this.maxChecks, this.branching, this.size, this.all := qd, maxChecks, branching, size, all;
      checks, checked, lost := 0, {}, multiset{};
    }

    /** What was checked and kept so far. */
    ghost predicate Steady()
      reads this, result
    {
      && (forall p :: 0 <= p < size ==> qd(p) < MAX_DIST)
      && result.Valid() && Recorded(result.offered, qd, checked) && checks == |checked|
      && (lost != multiset{} ==> checks >= maxChecks && result.isFull)
    }

    /** What is still pending; extra are the points about to be searched. */
    ghost predicate Open(extra: multiset<int>)
      reads this, heap
    {
      && EachOnce(all, size) && heap.length == size && branching > 0
      && AllBushy(branching, heap.heap) && Accounted(heap.heap, extra, checked, lost, all)
    }

    ghost predicate Valid(extra: multiset<int>)
      reads this, heap, result
    {
      Steady() && Open(extra)
    }

    /** The budget is spent and there are enough results. */
    ghost predicate Spent(checked: nat) {
      checked >= maxChecks && checked >= result.capacity
    }

    lemma {:induction false} FullIff()
      requires Steady()
      ensures Spent(|checked|) <==> checks >= maxChecks && result.isFull
    {
      assert |multiset(result.distIndex)| == |result.distIndex|;
    }

    /** The search only ever checks more and stays full. */
    twostate predicate Progress()
      reads this, result
    {
      old(checks) <= checks && (old(result.isFull) ==> result.isFull)
    }

    /** One point of a leaf; it has not been checked before. */
    method ScanPoint(p: int, ghost rest: multiset<int>)
      requires Valid(rest + multiset{p})
      modifies this, result
      ensures Valid(rest) && Progress() && lost == old(lost) && checked == old(checked) + {p}
      ensures checks == old(checks) + 1
    {
      PointNew(heap.heap, rest, checked, lost, all, size, p);
      if p !in checked {
        Check(p, rest);
      }
    }

    method Check(p: int, ghost rest: multiset<int>)
      requires Valid(rest + multiset{p}) && p !in checked && 0 <= p < size
      requires Accounted(heap.heap, rest, checked + {p}, lost, all)
      modifies this, result
      ensures Valid(rest) && Progress() && lost == old(lost) && checked == old(checked) + {p}
      ensures checks == old(checks) + 1
    {
      var dist := qd(p);
      RecordedNext(result.offered, qd, checked, p);
      result.AddPoint(dist, p);
      checked := checked + {p};
      checks := checks + 1;
    }

    method ScanLeaf(points: seq<int>)
      requires Valid(multiset(points))
      modifies this, result
      ensures Valid(multiset{}) && Progress() && checks == old(checks) + |points|
      ensures checked == old(checked) + set p | p in points
    {
      hide Steady, Open, Accounted, Recorded;
      var i := 0;
      assert points[0..] == points;
      while i < |points|
        invariant 0 <= i <= |points| && Valid(multiset(points[i..])) && Progress() && checks == old(checks) + i
        invariant checked == old(checked) + set p | p in points[..i]
      {
        assert points[..i + 1] == points[..i] + [points[i]];
        SliceHead(points, i);
        ScanPoint(points[i], multiset(points[i + 1..]));
        i := i + 1;
      }
      assert multiset(points[i..]) == multiset{} && points[..i] == points;
    }

    /** A leaf: scanned, or given up once enough was checked for a full result. */
    method VisitLeaf(points: seq<int>)
      requires Valid(multiset(points))
      modifies this, result
      ensures Valid(multiset{}) && Progress() && checks + |lost| == old(checks + |lost|) + |points|
      ensures checks == old(checks) + if old(checks >= maxChecks && result.isFull) then 0 else |points|
      ensures checked == old(checked) + if old(Spent(|checked|)) then {} else set p | p in points
    {
      FullIff();
      hide Accounted, AllBushy, Recorded, EachOnce, KeepsSmallest;
      if checks >= maxChecks && result.isFull {
        lost := lost + multiset(points);
        return;
      }
      ScanLeaf(points);
    }

    /** The child whose pivot is nearest to the query, the first one of those. */
    method NearestChild(childs: seq<Node>) returns (distances: seq<int>, best: nat)
      requires |childs| > 0 && forall i :: 0 <= i < |childs| ==> childs[i].pivot.Some?
      ensures best < |childs| && |distances| == |childs|
      ensures forall i :: 0 <= i < |childs| ==> distances[i] == qd(childs[i].pivot.value)
      ensures forall i :: 0 <= i < |childs| ==> distances[best] <= distances[i]
      ensures forall i :: 0 <= i < best ==> distances[best] < distances[i]
    {
      best := 0;
      distances := [qd(childs[0].pivot.value)];
      var i := 1;
      while i < |childs|
        invariant 1 <= i <= |childs| && |distances| == i && best < i
        invariant forall j :: 0 <= j < i ==> distances[j] == qd(childs[j].pivot.value)
        invariant forall j :: 0 <= j < i ==> distances[best] <= distances[j]
        invariant forall j :: 0 <= j < best ==> distances[best] < distances[j]
      {
        distances := distances + [qd(childs[i].pivot.value)];
        if distances[i] < distances[best] {
          best := i;
        }
        i := i + 1;
      }
    }

    /** A branch is queued; the queue has room for it. */
    method Queue(node: Node, dist: int, ghost rest: multiset<int>)
      requires Open(rest + Points(node)) && Points(node) != multiset{} && Bushy(branching, node)
      modifies heap
      ensures Open(rest) && heap.heap == old(heap.heap) + [Branch(node, dist)]
    {
      PendingPush(heap.heap, Branch(node, dist));
      QueueHasRoom(branching, heap.heap + [Branch(node, dist)], rest, checked, lost, all, size);
      heap.Insert(Branch(node, dist));
    }

    /** All children except the best one are queued, in order, each with the distance of its pivot. */
    method QueueOthers(childs: seq<Node>, distances: seq<int>, best: nat)
      requires best < |childs| && PivotsMeasured(qd, branching, childs, distances)
      requires Open(AllPoints(childs))
      modifies heap
      ensures Open(Points(childs[best])) && OthersQueued(qd, old(heap.heap), childs, best, |childs|, heap.heap)
    {
      hide *;
      ghost var was := heap.heap;
      LeftEnds(childs, best);
      NoneQueued(qd, was, childs, best);
      var i := 0;
      while i < |childs|
        invariant 0 <= i <= |childs| && Open(Left(childs, best, i))
        invariant OthersQueued(qd, was, childs, best, i, heap.heap)
      {
        QueueUnlessBest(childs, distances, best, i, was);
        i := i + 1;
      }
    }

    method QueueUnlessBest(childs: seq<Node>, distances: seq<int>, best: nat, i: nat, ghost was: seq<Branch>)
      requires best < |childs| && i < |childs| && PivotsMeasured(qd, branching, childs, distances)
      requires Open(Left(childs, best, i)) && OthersQueued(qd, was, childs, best, i, heap.heap)
      modifies heap
      ensures Open(Left(childs, best, i + 1)) && OthersQueued(qd, was, childs, best, i + 1, heap.heap)
    {
      LeftStep(childs, best, i);
      if i != best {
        Queue(childs[i], distances[i], Left(childs, best, i + 1));
      }
    }

    /** The branches of an inner node: the nearest one is taken, the others are queued. */
    method Branches(childs: seq<Node>) returns (best: nat)
      requires |childs| == branching && forall k :: 0 <= k < |childs| ==> Child(branching, childs[k])
      requires Open(AllPoints(childs))
      modifies heap
      ensures branching > 0 && FirstNearest(qd, childs, best) && Open(Points(childs[best]))
      ensures OthersQueued(qd, old(heap.heap), childs, best, |childs|, heap.heap)
    {
      var distances: seq<int>;
      distances, best := NearestChild(childs);
      QueueOthers(childs, distances, best);
    }

    /** Queue and checked points of the moment. */
    ghost function Now(): Bin
      reads this, heap
    {
      Bin(heap.heap, checked)
    }

    /** Down to the nearest leaf, queueing the branches not taken. */
    method FindNN(node: Node)
      requires Valid(Points(node)) && Bushy(branching, node)
      modifies this, heap, result
      ensures Valid(multiset{}) && Progress()
      ensures Points(node) != multiset{} ==> checks + |lost| > old(checks + |lost|)
      ensures Turn(qd, result.capacity, maxChecks, old(Now()), node, Now())
      ensures old(checks >= maxChecks && result.isFull) ==> checks == old(checks)
      decreases node
    {
      if node.childs == [] {
        VisitLeaf(node.points);
        AtLeaf(qd, result.capacity, maxChecks, old(Now()), node, Now());
      } else {
        var best := Branches(node.childs);
        ghost var mid := Now();
        FindNN(node.childs[best]);
        OneUp(qd, result.capacity, maxChecks, old(Now()), node, best, mid, Now());
      }
    }

    /** The state between two branches: the next one is popped, or the queue is empty. */
    ghost predicate Popped(ok: bool, branch: Option<Branch>)
      reads this, heap, result
    {
      if ok then
        && branch.Some? && Bushy(branching, branch.value.node) && Points(branch.value.node) != multiset{}
        && Valid(Points(branch.value.node))
      else heap.heap == [] && Valid(multiset{})
    }

    method Pop() returns (ok: bool, branch: Option<Branch>)
      requires Valid(multiset{}) && PivotsQueued(qd, heap.heap)
      modifies heap
      ensures Popped(ok, branch) && PivotsQueued(qd, heap.heap)
      ensures ok == (old(heap.heap) != [])
      ensures ok ==> NearestTaken(qd, old(heap.heap), branch.value.node, heap.heap)
    {
      hide PivotsQueued, NearestTaken, Steady, Accounted, AllBushy, EachOnce, Bushy;
      ghost var was := heap.heap;
      ghost var k: nat;
      ok, branch, k := heap.PopMin();
      if ok {
        PopAccounted(branching, was, heap.heap, k, checked, lost, all);
        PopsNearest(qd, was, k, heap.heap);
      }
    }

    /** Every point was checked, or enough were and the result is full. */
    ghost predicate Finished()
      reads this, result
    {
      && result.Valid() && Recorded(result.offered, qd, checked)
      && checked <= Upto(size) && (checked == Upto(size) || (|checked| >= maxChecks && result.isFull))
    }

    /** Branches are searched, nearest pivot first, until the budget is spent on a full result. */
    method FindNeighbors(root: Node) returns (ghost run: seq<Bin>)
      requires Valid(all) && Points(root) == all && Bushy(branching, root) && heap.heap == [] && checked == {}
      modifies this, heap, result
      ensures Finished()
      ensures BestBinFirst(qd, result.capacity, maxChecks, root, run) && run[|run| - 1].checked == checked
    {
      var ok, branch;
      ok, branch, run := FirstTurn(root);
      hide Popped, Pursued, Finished, BestBinFirst;
      while ok && (checks < maxChecks || !result.isFull)
        invariant Popped(ok, branch) && Pursued(root, run, ok, branch) && (ok ==> checks + |lost| <= size)
        decreases size - checks - |lost|
      {
        ok, branch, run := NextTurn(root, branch, run);
      }
      RunEnds(root, run, ok, branch);
    }

    /** The run so far, and the branch taken from its last queue. */
    ghost predicate Pursued(root: Node, run: seq<Bin>, ok: bool, branch: Option<Branch>)
      reads this, heap
    {
      && run != [] && Turns(qd, result.capacity, maxChecks, root, run)
      && PivotsQueued(qd, heap.heap) && run[|run| - 1].checked == checked
      && ok == (run[|run| - 1].queue != [])
      && (ok ==> branch.Some? && NearestTaken(qd, run[|run| - 1].queue, branch.value.node, heap.heap))
    }

    /** The descent from the root, after which the first branch is taken out. */
    method FirstTurn(root: Node) returns (ok: bool, branch: Option<Branch>, ghost run: seq<Bin>)
      requires Valid(Points(root)) && Bushy(branching, root) && heap.heap == [] && checked == {}
      modifies this, heap, result
      ensures Popped(ok, branch) && Pursued(root, run, ok, branch) && (ok ==> checks + |lost| <= size)
    {
      hide Turn, PivotsQueued, NearestTaken, Turns;
      FindNN(root);
      run := [Now()];
      RunStarts(qd, result.capacity, maxChecks, root, Now());
      ok, branch := Pop();
      RoomLeft(ok, branch);
    }

    /** The branch taken out is searched and the next one taken out. */
    method NextTurn(root: Node, branch: Option<Branch>, ghost run: seq<Bin>)
      returns (ok: bool, branch': Option<Branch>, ghost run': seq<Bin>)
      requires Popped(true, branch) && Pursued(root, run, true, branch)
      requires checks < maxChecks || !result.isFull
      modifies this, heap, result
      ensures Popped(ok, branch') && Pursued(root, run', ok, branch')
      ensures checks + |lost| > old(checks + |lost|) && (ok ==> checks + |lost| <= size)
    {
      FullIff();
      hide Turn, PivotsQueued, NearestTaken, Turns;
      ghost var mid := Now();
      FindNN(branch.value.node);
      TurnsNext(qd, result.capacity, maxChecks, root, run, branch.value.node, mid, Now());
      TurnKeepsPivots(qd, result.capacity, maxChecks, mid, branch.value.node, Now());
      run' := run + [Now()];
      ok, branch' := Pop();
      RoomLeft(ok, branch');
    }

    lemma {:induction false} RunEnds(root: Node, run: seq<Bin>, ok: bool, branch: Option<Branch>)
      requires Popped(ok, branch) && Pursued(root, run, ok, branch) && (ok ==> checks >= maxChecks && result.isFull)
      ensures Finished() && run != [] && run[|run| - 1].checked == checked
      ensures BestBinFirst(qd, result.capacity, maxChecks, root, run)
    {
      End(ok, branch);
      FullIff();
      hide Turns;
    }

    lemma {:induction false} RoomLeft(ok: bool, branch: Option<Branch>)
      requires Popped(ok, branch)
      ensures ok ==> checks + |lost| <= size
    {
      if ok {
        SpentBound(heap.heap, Points(branch.value.node), checked, lost, all, size);
      }
    }

    lemma {:induction false} Answered(root: Node, run: seq<Bin>, indices: seq<int>, dists: seq<int>)
      requires Finished() && Copied(result.distIndex, indices, dists)
      requires BestBinFirst(qd, result.capacity, maxChecks, root, run) && run[|run| - 1].checked == checked
      ensures Answer(qd, root, size, result.capacity, maxChecks, indices, dists)
    {
      HitsNearest(qd, result.distIndex, result.dropped, result.offered, result.capacity, checked, indices, dists);
      HitsCount(result.offered, qd, checked, size, result.capacity, multiset(result.distIndex), result.dropped);
    }

    lemma {:induction false} End(ok: bool, branch: Option<Branch>)
      requires Popped(ok, branch) && (ok ==> checks >= maxChecks && result.isFull)
      ensures Finished()
    {
      var extra := if ok then Points(branch.value.node) else multiset{};
      assert Accounted(heap.heap, extra, checked, lost, all);
      UptoSize(size);
      forall p | p in checked
        ensures p in Upto(size)
      {
        assert p in multiset(checked);
        assert p in all;
      }
      if !ok && lost == multiset{} {
        forall p | p in Upto(size)
          ensures p in checked
        {
          assert p in all;
          assert p in multiset(checked);
        }
      }
    }
  }

  lemma {:induction false} PopAccounted(branching: nat, was: seq<Branch>, heap: seq<Branch>, k: nat, checked: set<int>,
                                        lost: multiset<int>, all: multiset<int>)
    requires AllBushy(branching, was) && Accounted(was, multiset{}, checked, lost, all)
    requires k < |was| && heap == was[..k] + was[k + 1..]
    ensures Accounted(heap, Points(was[k].node), checked, lost, all)
    ensures AllBushy(branching, heap) && Points(was[k].node) != multiset{} && Bushy(branching, was[k].node)
  {
    PendingRemove(was, k);
  }

  lemma {:induction false} SpentBound(heap: seq<Branch>, extra: multiset<int>, checked: set<int>, lost: multiset<int>,
                                      all: multiset<int>, size: nat)
    requires Accounted(heap, extra, checked, lost, all) && EachOnce(all, size)
    ensures |checked| + |lost| + |extra| <= size
  {
    assert |all| == |Pending(heap)| + |extra| + |multiset(checked)| + |lost|;
  }

  lemma {:induction false} SliceHead(points: seq<int>, i: nat)
    requires i < |points|
    ensures multiset(points[i..]) == multiset(points[i + 1..]) + multiset{points[i]}
  {
    assert points[i..] == [points[i]] + points[i + 1..];
  }

  /** The child with the nearest pivot, the first one of those. */
  ghost predicate FirstNearest(qd: int -> int, childs: seq<Node>, best: nat) {
    && best < |childs| && (forall i :: 0 <= i < |childs| ==> childs[i].pivot.Some?)
    && (forall i :: 0 <= i < |childs| ==> qd(childs[best].pivot.value) <= qd(childs[i].pivot.value))
    && forall i :: 0 <= i < best ==> qd(childs[best].pivot.value) < qd(childs[i].pivot.value)
  }

  /** Behind the old queue: the first n children but the best one, each at the distance of its pivot. */
  ghost predicate OthersQueued(qd: int -> int, was: seq<Branch>, childs: seq<Node>, best: nat, n: nat,
                               now: seq<Branch>)
  {
    && n <= |childs| && |now| == |was| + n - (if best < n then 1 else 0) && now[..|was|] == was
    && forall j :: 0 <= j < n && j != best ==>
      childs[j].pivot.Some? && now[|was| + if j < best then j else j - 1] ==
          Branch(childs[j], qd(childs[j].pivot.value))
  }

  /** Children of an inner node and the distances of their pivots. */
  ghost predicate PivotsMeasured(qd: int -> int, branching: nat, childs: seq<Node>, distances: seq<int>) {
    && |distances| == |childs|
    && forall i :: 0 <= i < |childs| ==>
      Child(branching, childs[i]) && childs[i].pivot.Some? && distances[i] == qd(childs[i].pivot.value)
  }

  lemma NoneQueued(qd: int -> int, was: seq<Branch>, childs: seq<Node>, best: nat)
    ensures OthersQueued(qd, was, childs, best, 0, was)
  {
  }

  /** A node on a descent, with the queue there. */
  datatype Stop = Stop(node: Node, queue: seq<Branch>)

  /** Down to a nearest child; the others are queued. */
  ghost predicate Down(qd: int -> int, a: Stop, b: Stop) {
    exists best :: 0 <= best < |a.node.childs| && FirstNearest(qd, a.node.childs, best)
      && b.node == a.node.childs[best] && OthersQueued(qd, a.queue, a.node.childs, best, |a.node.childs|, b.queue)
  }

  /** From the first stop to a leaf, one level after the other. */
  ghost predicate Descent(qd: int -> int, stops: seq<Stop>) {
    && stops != [] && stops[|stops| - 1].node.childs == []
    && forall i :: 0 <= i < |stops| - 1 ==> Down(qd, stops[i], stops[i + 1])
  }

  /** The queue of branches and the points checked so far. */
  datatype Bin = Bin(queue: seq<Branch>, checked: set<int>)

  /**
   One descent from a node to a leaf, whose points are then checked, unless the budget is spent and there are
   enough results.
   */
  ghost predicate Turn(qd: int -> int, knn: nat, maxChecks: int, a: Bin, start: Node, b: Bin) {
    exists stops :: Descent(qd, stops) && stops[0] == Stop(start, a.queue) && LeafDone(knn, maxChecks, a, stops, b)
  }

  ghost predicate LeafDone(knn: nat, maxChecks: int, a: Bin, stops: seq<Stop>, b: Bin)
    requires stops != []
  {
    var leaf := stops[|stops| - 1];
    && b.queue == leaf.queue
    && b.checked == a.checked + if |a.checked| >= maxChecks && |a.checked| >= knn then {}
         else set p | p in leaf.node.points
  }

  lemma {:induction false} AtLeaf(qd: int -> int, knn: nat, maxChecks: int, a: Bin, node: Node, b: Bin)
    requires node.childs == [] && b.queue == a.queue
    requires b.checked == a.checked
      + if |a.checked| >= maxChecks && |a.checked| >= knn then {} else set p | p in node.points
    ensures Turn(qd, knn, maxChecks, a, node, b)
  {
    var stops := [Stop(node, a.queue)];
    assert Descent(qd, stops) && stops[0] == Stop(node, a.queue);
    assert LeafDone(knn, maxChecks, a, stops, b);
  }

  /** A descent from a nearest child is one from its parent. */
  lemma {:induction false} OneUp(qd: int -> int, knn: nat, maxChecks: int, a: Bin, node: Node, best: nat, mid: Bin,
                                 b: Bin)
    requires best < |node.childs| && FirstNearest(qd, node.childs, best) && mid.checked == a.checked
    requires OthersQueued(qd, a.queue, node.childs, best, |node.childs|, mid.queue)
    requires Turn(qd, knn, maxChecks, mid, node.childs[best], b)
    ensures Turn(qd, knn, maxChecks, a, node, b)
  {
    hide OthersQueued, FirstNearest;
    var below :| Descent(qd, below) && below[0] == Stop(node.childs[best], mid.queue)
      && LeafDone(knn, maxChecks, mid, below, b);
    var stops := [Stop(node, a.queue)] + below;
    assert Down(qd, stops[0], stops[1]);
    forall i | 0 <= i < |stops| - 1
      ensures Down(qd, stops[i], stops[i + 1])
    {
      assert i > 0 ==> stops[i] == below[i - 1] && stops[i + 1] == below[i];
    }
    assert Descent(qd, stops) && stops[0] == Stop(node, a.queue);
    assert LeafDone(knn, maxChecks, a, stops, b);
  }

  /** Every branch waits at the distance of its pivot. */
  ghost predicate PivotsQueued(qd: int -> int, queue: seq<Branch>) {
    forall i :: 0 <= i < |queue| ==> queue[i].node.pivot.Some? && queue[i].mindist == qd(queue[i].node.pivot.value)
  }

  /** A node is taken out of the queue; no pivot left in it is nearer. */
  ghost predicate NearestTaken(qd: int -> int, queue: seq<Branch>, node: Node, rest: seq<Branch>) {
    exists k :: 0 <= k < |queue| && queue[k].node == node && rest == queue[..k] + queue[k + 1..]
      && node.pivot.Some? && forall b :: b in queue ==>
        b.node.pivot.Some? && qd(node.pivot.value) <= qd(b.node.pivot.value)
  }

  lemma {:induction false} PopsNearest(qd: int -> int, was: seq<Branch>, k: nat, rest: seq<Branch>)
    requires PivotsQueued(qd, was) && k < |was| && rest == was[..k] + was[k + 1..]
    requires forall i :: 0 <= i < |was| ==> was[k].mindist <= was[i].mindist
    ensures NearestTaken(qd, was, was[k].node, rest) && PivotsQueued(qd, rest)
  {
    var node := was[k].node;
    forall b | b in was
      ensures b.node.pivot.Some? && qd(node.pivot.value) <= qd(b.node.pivot.value)
    {
      var i :| 0 <= i < |was| && was[i] == b;
      assert was[k].mindist <= was[i].mindist;
    }
    assert was[k].node == node;
  }

  /** A first descent from the root, then one from a nearest pending branch after the other. */
  ghost predicate Turns(qd: int -> int, knn: nat, maxChecks: int, root: Node, run: seq<Bin>) {
    && run != [] && Turn(qd, knn, maxChecks, Bin([], {}), root, run[0])
    && forall t :: 0 <= t < |run| - 1 ==> Pursuit(qd, knn, maxChecks, run[t], run[t + 1])
  }

  /** Unless the budget is spent and there are enough results, a nearest branch is taken out and searched. */
  ghost predicate Pursuit(qd: int -> int, knn: nat, maxChecks: int, a: Bin, b: Bin) {
    && (|a.checked| < maxChecks || |a.checked| < knn)
    && exists node, rest ::
         NearestTaken(qd, a.queue, node, rest) && Turn(qd, knn, maxChecks, Bin(rest, a.checked), node, b)
  }

  /** Such a run to its end: no branch is left, or the budget is spent and there are enough results. */
  ghost predicate BestBinFirst(qd: int -> int, knn: nat, maxChecks: int, root: Node, run: seq<Bin>) {
    && run != [] && Turns(qd, knn, maxChecks, root, run)
    && var last := run[|run| - 1];
       last.queue == [] || (|last.checked| >= maxChecks && |last.checked| >= knn)
  }

  lemma {:induction false} RunStarts(qd: int -> int, knn: nat, maxChecks: int, root: Node, b: Bin)
    requires Turn(qd, knn, maxChecks, Bin([], {}), root, b)
    ensures Turns(qd, knn, maxChecks, root, [b]) && PivotsQueued(qd, b.queue)
  {
    TurnKeepsPivots(qd, knn, maxChecks, Bin([], {}), root, b);
  }

  lemma {:induction false} TurnsNext(qd: int -> int, knn: nat, maxChecks: int, root: Node, run: seq<Bin>, node: Node,
                                     mid: Bin, b: Bin)
    requires run != [] && Turns(qd, knn, maxChecks, root, run)
    requires var last := run[|run| - 1];
      && (|last.checked| < maxChecks || |last.checked| < knn) && NearestTaken(qd, last.queue, node, mid.queue)
      && mid.checked == last.checked
    requires Turn(qd, knn, maxChecks, mid, node, b)
    ensures Turns(qd, knn, maxChecks, root, run + [b])
  {
    hide Turn, NearestTaken;
    assert mid == Bin(mid.queue, run[|run| - 1].checked);
    assert Pursuit(qd, knn, maxChecks, run[|run| - 1], b);
    hide Pursuit;
  }

  /** The branches a turn adds wait at the distances of their pivots. */
  lemma {:induction false} TurnKeepsPivots(qd: int -> int, knn: nat, maxChecks: int, a: Bin, start: Node, b: Bin)
    requires Turn(qd, knn, maxChecks, a, start, b) && PivotsQueued(qd, a.queue)
    ensures PivotsQueued(qd, b.queue)
  {
    var stops :| Descent(qd, stops) && stops[0] == Stop(start, a.queue) && LeafDone(knn, maxChecks, a, stops, b);
    StopsKeepPivots(qd, stops, |stops| - 1);
  }

  lemma {:induction false} StopsKeepPivots(qd: int -> int, stops: seq<Stop>, i: nat)
    requires Descent(qd, stops) && PivotsQueued(qd, stops[0].queue) && i < |stops|
    ensures PivotsQueued(qd, stops[i].queue)
  {
    if i > 0 {
      StopsKeepPivots(qd, stops, i - 1);
      assert Down(qd, stops[i - 1], stops[i]);
      var childs := stops[i - 1].node.childs;
      var best :| 0 <= best < |childs| && OthersQueued(qd, stops[i - 1].queue, childs, best, |childs|, stops[i].queue);
      OthersKeepPivots(qd, stops[i - 1].queue, childs, best, stops[i].queue);
    }
  }

  lemma {:induction false} OthersKeepPivots(qd: int -> int, was: seq<Branch>, childs: seq<Node>, best: nat,
                                            now: seq<Branch>)
    requires PivotsQueued(qd, was) && best < |childs| && OthersQueued(qd, was, childs, best, |childs|, now)
    ensures PivotsQueued(qd, now)
  {
    forall i | 0 <= i < |now|
      ensures now[i].node.pivot.Some? && now[i].mindist == qd(now[i].node.pivot.value)
    {
      if i < |was| {
        assert now[i] == now[..|was|][i];
      } else {
        var j := if i - |was| < best then i - |was| else i - |was| + 1;
        assert now[|was| + if j < best then j else j - 1] == Branch(childs[j], qd(childs[j].pivot.value));
      }
    }
  }

  /** What the children from i on, and the best one, still hold. */
  ghost function Left(childs: seq<Node>, best: nat, i: nat): multiset<int>
    requires best < |childs| && i <= |childs|
  {
    AllPoints(childs[i..]) + if best < i then Points(childs[best]) else multiset{}
  }

  lemma {:induction false} LeftEnds(childs: seq<Node>, best: nat)
    requires best < |childs|
    ensures Left(childs, best, 0) == AllPoints(childs) && Left(childs, best, |childs|) == Points(childs[best])
  {
    assert childs[0..] == childs;
  }

  lemma {:induction false} LeftStep(childs: seq<Node>, best: nat, i: nat)
    requires best < |childs| && i < |childs|
    ensures Left(childs, best, i) == Left(childs, best, i + 1) + if i == best then multiset{} else Points(childs[i])
  {
    assert childs[i..] == [childs[i]] + childs[i + 1..];
    FirstPoints(childs[i], childs[i + 1..]);
  }

  lemma {:induction false} LastPoints(nodes: seq<Node>, last: Node)
    ensures AllPoints(nodes + [last]) == AllPoints(nodes) + Points(last)
  {
    assert (nodes + [last])[..|nodes|] == nodes;
  }

  lemma {:induction false} FirstPoints(first: Node, nodes: seq<Node>)
    ensures AllPoints([first] + nodes) == Points(first) + AllPoints(nodes)
  {
    if nodes == [] {
      LastPoints([], first);
      assert [] + [first] == [first] + nodes;
    } else {
      var front, last := nodes[..|nodes| - 1], nodes[|nodes| - 1];
      FirstPoints(first, front);
      assert nodes == front + [last] && [first] + nodes == ([first] + front) + [last];
      LastPoints(front, last);
      LastPoints([first] + front, last);
    }
  }

  lemma {:induction false} QueueHasRoom(branching: nat, heap: seq<Branch>, rest: multiset<int>, checked: set<int>,
                                        lost: multiset<int>, all: multiset<int>, size: nat)
    requires AllBushy(branching, heap) && Accounted(heap, rest, checked, lost, all) && EachOnce(all, size)
    ensures |heap| <= size
  {
    PendingBound(branching, heap);
    assert |all| == |Pending(heap)| + |rest| + |multiset(checked)| + |lost|;
  }

  lemma {:induction false} RecordedNext(offered: multiset<Hit>, qd: int -> int, checked: set<int>, p: int)
    requires Recorded(offered, qd, checked) && p !in checked
    ensures Recorded(offered + multiset{Hit(qd(p), p)}, qd, checked + {p})
  {
  }

  /** Points that are still to be searched are not checked yet. */
  lemma {:induction false} PointNew(heap: seq<Branch>, rest: multiset<int>, checked: set<int>, lost: multiset<int>,
                                    all: multiset<int>, size: nat, p: int)
    requires EachOnce(all, size) && Accounted(heap, rest + multiset{p}, checked, lost, all)
    ensures p !in checked && 0 <= p < size
    ensures Accounted(heap, rest, checked + {p}, lost, all)
  {
    var m := Pending(heap) + (rest + multiset{p}) + multiset(checked) + lost;
    assert m[p] >= 1 + multiset(checked)[p];
    assert p !in checked;
    assert multiset(checked + {p}) == multiset(checked) + multiset{p};
  }

  /** The numbers below n. */
  ghost function Upto(n: nat): set<int> {
    if n == 0 then {} else Upto(n - 1) + {n - 1}
  }

  lemma {:induction false} UptoSize(n: nat)
    ensures |Upto(n)| == n && forall i :: i in Upto(n) <==> 0 <= i < n
  {
    if n > 0 {
      UptoSize(n - 1);
    }
  }

  lemma {:induction false} SubsetSize(a: set<int>, b: set<int>)
    requires a <= b
    ensures |a| <= |b| && (|a| == |b| ==> a == b)
  {
    assert b == a + (b - a);
  }

  /** The results are the nearest of the checked points. */
  ghost predicate NearestOf(qd: int -> int, checked: set<int>, indices: seq<int>, dists: seq<int>) {
    && |indices| == |dists| && Distinct(indices)
    && (forall i :: 0 <= i < |indices| ==> indices[i] in checked && dists[i] == qd(indices[i]))
    && (forall p, i :: p in checked && p !in indices && 0 <= i < |dists| ==> dists[i] <= qd(p))
  }

  /** What one query promises: as many results as possible, nearest of at least maxChecks points. */
  ghost predicate Answer(qd: int -> int, root: Node, size: nat, knn: nat, maxChecks: int, indices: seq<int>,
                         dists: seq<int>)
  {
    && |indices| == (if knn < size then knn else size)
    && exists run: seq<Bin> :: BestBinFirst(qd, knn, maxChecks, root, run)
         && Results(qd, size, maxChecks, run[|run| - 1].checked, indices, dists)
  }

  /** The nearest of the checked points; those are all points, or as many as the budget asks for. */
  ghost predicate Results(qd: int -> int, size: nat, maxChecks: int, checked: set<int>, indices: seq<int>,
                          dists: seq<int>)
  {
    && NearestOf(qd, checked, indices, dists) && checked <= Upto(size)
    && (checked == Upto(size) || |checked| >= maxChecks)
  }

  /** With a budget of every point the answer is exact. */
  lemma {:induction false} ExactAnswer(qd: int -> int, root: Node, size: nat, knn: nat, maxChecks: int,
                                       indices: seq<int>, dists: seq<int>)
    requires Answer(qd, root, size, knn, maxChecks, indices, dists) && maxChecks >= size
    ensures NearestOf(qd, Upto(size), indices, dists)
  {
    var run: seq<Bin> :| BestBinFirst(qd, knn, maxChecks, root, run)
      && Results(qd, size, maxChecks, run[|run| - 1].checked, indices, dists);
    UptoSize(size);
    SubsetSize(run[|run| - 1].checked, Upto(size));
  }

  /** The points of hits, and their distances. */
  ghost predicate Copied(hits: seq<Hit>, indices: seq<int>, dists: seq<int>) {
    && |indices| == |dists| == |hits|
    && forall i :: 0 <= i < |hits| ==> indices[i] == hits[i].index && dists[i] == hits[i].dist
  }

  lemma {:induction false} HitMultiplicity(hits: seq<Hit>, i: nat, j: nat)
    requires i < j < |hits| && hits[i] == hits[j]
    ensures multiset(hits)[hits[i]] >= 2
  {
    assert hits == hits[..j] + hits[j..];
    assert hits[..j][i] == hits[i] && hits[j..][0] == hits[j];
    assert hits[i] in multiset(hits[..j]) && hits[i] in multiset(hits[j..]);
    assert multiset(hits) == multiset(hits[..j]) + multiset(hits[j..]);
  }

  lemma {:induction false} HitsNearest(qd: int -> int, hits: seq<Hit>, dropped: multiset<Hit>, offered: multiset<Hit>,
                                       capacity: nat,
                                       checked: set<int>, indices: seq<int>, dists: seq<int>)
    requires KeepsSmallest(Key, multiset(hits), dropped, offered, capacity) && Recorded(offered, qd, checked)
    requires Copied(hits, indices, dists)
    ensures NearestOf(qd, checked, indices, dists)
  {
    forall i | 0 <= i < |hits|
      ensures indices[i] in checked && dists[i] == qd(indices[i])
    {
      assert hits[i] in multiset(hits);
      assert offered[hits[i]] > 0;
    }
    forall i, j | 0 <= i < j < |hits|
      ensures indices[i] != indices[j]
    {
      assert hits[i] in multiset(hits) && hits[j] in multiset(hits);
      assert offered[hits[i]] == 1 && offered[hits[j]] > 0;
      assert multiset(hits)[hits[i]] <= 1;
      if hits[i] == hits[j] {
        HitMultiplicity(hits, i, j);
      }
    }
    forall p, i | p in checked && p !in indices && 0 <= i < |dists|
      ensures dists[i] <= qd(p)
    {
      var hit := Hit(qd(p), p);
      forall j | 0 <= j < |hits|
        ensures hits[j] != hit
      {
        assert indices[j] in indices;
      }
      assert hit !in hits && offered[hit] == 1;
      assert hit in dropped;
      assert hits[i] in multiset(hits);
    }
  }

  lemma {:induction false} HitsCount(offered: multiset<Hit>, qd: int -> int, checked: set<int>, size: nat,
                                     capacity: nat,
                                     kept: multiset<Hit>, dropped: multiset<Hit>)
    requires KeepsSmallest(Key, kept, dropped, offered, capacity) && Recorded(offered, qd, checked)
    requires checked <= Upto(size) && (checked == Upto(size) || |kept| == capacity)
    ensures |kept| == if capacity < size then capacity else size
  {
    UptoSize(size);
    SubsetSize(checked, Upto(size));
  }

  /** One query against a tree. */
  method KnnQuery(root: Node, size: nat, p: Params, qd: int -> int, knn: nat, maxChecks: int)
    returns (indices: seq<int>, dists: seq<int>)
    requires GoodParams(p) && GoodTree(p, size, root) && knn > 0 && forall x :: 0 <= x < size ==> qd(x) < MAX_DIST
    ensures Answer(qd, root, size, knn, maxChecks, indices, dists)
  {
    ClusteredBushy(p.dist, p.branching, p.leafMax, root);
    var search := new Search(qd, knn, maxChecks, p.branching, size, Points(root));
    ghost var run := search.FindNeighbors(root);
    indices, dists := search.result.Copy();
    search.Answered(root, run, indices, dists);
  }

  /** All queries; the answers are counted. */
  method KnnSearch(root: Node, size: nat, p: Params, queries: seq<int -> int>, knn: nat, maxChecks: int)
    returns (indices: seq<seq<int>>, dists: seq<seq<int>>, count: nat)
    requires GoodParams(p) && GoodTree(p, size, root) && knn > 0
    requires forall i, x :: 0 <= i < |queries| && 0 <= x < size ==> queries[i](x) < MAX_DIST
    ensures |indices| == |dists| == |queries| && count == |queries| * (if knn < size then knn else size)
    ensures forall i :: 0 <= i < |queries| ==> Answer(queries[i], root, size, knn, maxChecks, indices[i], dists[i])
  {
    hide Answer, GoodTree, GoodParams;
    indices, dists, count := [], [], 0;
    while |indices| < |queries|
      invariant |indices| == |dists| <= |queries| && count == |indices| * (if knn < size then knn else size)
      invariant forall i :: 0 <= i < |indices| ==> Answer(queries[i], root, size, knn, maxChecks, indices[i], dists[i])
    {
      var ids, ds := KnnQuery(root, size, p, queries[|indices|], knn, maxChecks);
      indices, dists, count := indices + [ids], dists + [ds], count + |ids|;
    }
  }
}
