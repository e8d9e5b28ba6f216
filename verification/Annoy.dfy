/**
 The random projection forest: trees of items in one growing node array, children before
 parents; copies of the roots at the end, from which they are found again; and the
 priority search over all trees.
 */
module AnnoyForests {
  import opened Wrappers
  import opened DistinctSeqs
  import opened Sorting

  /**
   An item (1 descendant), a small node (at most k descendants, listed as children) or
   an inner node (its two subtrees as children, v its hyperplane).
   */
  datatype Node = Node(nDescendants: int, children: seq<int>, v: seq<real>)

  const ZERO_NODE := Node(0, [0, 0], [])

  /** Node i is the root of a tree over items below n. */
  ghost predicate Tree(nodes: seq<Node>, n: int, k: nat, i: int)
    decreases if i < 0 then 0 else i
  {
    && 0 <= i < |nodes|
    && var nd := nodes[i];
       if nd.nDescendants == 1 then i < n
       else if nd.nDescendants <= k then 0 <= nd.nDescendants <= |nd.children| && 2 <= |nd.children|
       else
         && |nd.children| == 2 && 0 <= nd.children[0] < i && 0 <= nd.children[1] < i
         && Tree(nodes, n, k, nd.children[0]) && Tree(nodes, n, k, nd.children[1])
  }

  /** The items below a node. */
  ghost function Items(nodes: seq<Node>, n: int, k: nat, i: int): multiset<int>
    requires Tree(nodes, n, k, i)
    decreases i
  {
    var nd := nodes[i];
    if nd.nDescendants == 1 then multiset{i}
    else if nd.nDescendants <= k then multiset(nd.children[..nd.nDescendants])
    else Items(nodes, n, k, nd.children[0]) + Items(nodes, n, k, nd.children[1])
  }

  /** The nodes of a tree. */
  ghost function Size(nodes: seq<Node>, n: int, k: nat, i: int): nat
    requires Tree(nodes, n, k, i)
    decreases i
  {
    var nd := nodes[i];
    if nd.nDescendants <= 1 || nd.nDescendants <= k then 1
    else 1 + Size(nodes, n, k, nd.children[0]) + Size(nodes, n, k, nd.children[1])
  }

  /** A tree lies in the nodes up to its root. */
  lemma {:induction false} TreeStays(nodes: seq<Node>, nodes': seq<Node>, n: int, k: nat, i: int)
    requires Tree(nodes, n, k, i) && i < |nodes'| && nodes'[..i + 1] == nodes[..i + 1]
    ensures Tree(nodes', n, k, i) && Items(nodes', n, k, i) == Items(nodes, n, k, i)
    decreases i
  {
    var nd := nodes[i];
    assert nodes'[i] == nodes'[..i + 1][i] == nd;
    if nd.nDescendants != 1 && nd.nDescendants > k {
      forall c | c in nd.children
        ensures nodes'[..c + 1] == nodes[..c + 1]
      {
        assert nodes'[..i + 1][..c + 1] == nodes'[..c + 1] && nodes[..i + 1][..c + 1] == nodes[..c + 1];
      }
      TreeStays(nodes, nodes', n, k, nd.children[0]);
      TreeStays(nodes, nodes', n, k, nd.children[1]);
    }
  }

  /** Random choices: for each call and its items a hyperplane and the side of every item. */
  type Splits = (nat, seq<int>) -> (seq<real>, seq<bool>)

  /** The item stands in the list, on this side. */
  ghost predicate OnSide(indices: seq<int>, sides: seq<bool>, side: bool, x: int) {
    exists j :: 0 <= j < |indices| && j < |sides| && indices[j] == x && sides[j] == side
  }

  /** A node with the hyperplane of this choice; its child 1 holds the items on side true, child 0 the others. */
  ghost predicate SplitAs(nd: Node, split: (seq<real>, seq<bool>), indices: seq<int>, items0: multiset<int>,
                          items1: multiset<int>)
  {
    && nd.v == split.0 && multiset(indices) == items0 + items1
    && forall x ::
      (x in items0 <==> OnSide(indices, split.1, false, x)) && (x in items1 <==> OnSide(indices, split.1, true, x))
  }

  /** Every inner node of the tree is split as the choices say. */
  ghost predicate SplitBy(nodes: seq<Node>, n: int, k: nat, splits: Splits, i: int)
    requires Tree(nodes, n, k, i)
    decreases i
  {
    var nd := nodes[i];
    nd.nDescendants != 1 && nd.nDescendants > k ==>
      && (exists c: nat, indices ::
        SplitAs(nd, splits(c, indices), indices, Items(nodes, n, k, nd.children[0]),
                Items(nodes, n, k, nd.children[1])))
      && SplitBy(nodes, n, k, splits, nd.children[0]) && SplitBy(nodes, n, k, splits, nd.children[1])
  }

  lemma {:induction false} SplitStays(nodes: seq<Node>, nodes': seq<Node>, n: int, k: nat, splits: Splits, i: int)
    requires Tree(nodes, n, k, i) && i < |nodes'| && nodes'[..i + 1] == nodes[..i + 1]
    requires SplitBy(nodes, n, k, splits, i)
    ensures Tree(nodes', n, k, i) && SplitBy(nodes', n, k, splits, i)
    decreases i
  {
    hide SplitAs;
    var nd := nodes[i];
    TreeStays(nodes, nodes', n, k, i);
    assert nodes'[i] == nodes'[..i + 1][i] == nd;
    if nd.nDescendants != 1 && nd.nDescendants > k {
      forall c | c in nd.children
        ensures nodes'[..c + 1] == nodes[..c + 1]
      {
        assert nodes'[..i + 1][..c + 1] == nodes'[..c + 1] && nodes[..i + 1][..c + 1] == nodes[..c + 1];
      }
      TreeStays(nodes, nodes', n, k, nd.children[0]);
      TreeStays(nodes, nodes', n, k, nd.children[1]);
      SplitStays(nodes, nodes', n, k, splits, nd.children[0]);
      SplitStays(nodes, nodes', n, k, splits, nd.children[1]);
    }
  }

  /** All these roots lead to trees split as the choices say. */
  ghost predicate AllSplit(nodes: seq<Node>, n: int, k: nat, splits: Splits, roots: seq<int>) {
    forall j :: 0 <= j < |roots| ==> Tree(nodes, n, k, roots[j]) && SplitBy(nodes, n, k, splits, roots[j])
  }

  /** Trees that lie below m stay when nodes are appended. */
  lemma {:induction false} AllSplitStays(nodes: seq<Node>, nodes': seq<Node>, m: int, n: int, k: nat, splits: Splits,
                                         roots: seq<int>)
    requires AllSplit(nodes, n, k, splits, roots) && 0 <= m <= |nodes| && m <= |nodes'| && nodes'[..m] == nodes[..m]
    requires forall j :: 0 <= j < |roots| ==> roots[j] < m
    ensures AllSplit(nodes', n, k, splits, roots)
  {
    forall j | 0 <= j < |roots|
      ensures Tree(nodes', n, k, roots[j]) && SplitBy(nodes', n, k, splits, roots[j])
    {
      assert nodes'[..roots[j] + 1] == nodes'[..m][..roots[j] + 1] == nodes[..m][..roots[j] + 1] ==
          nodes[..roots[j] + 1];
      SplitStays(nodes, nodes', n, k, splits, roots[j]);
    }
  }

  /** Hyperplanes and the sides of the items, as the random choices give them; both sides get an item. */
  class Splitter {
    const splits: Splits
    var calls: nat

    ghost predicate Valid() {
      forall c, indices: seq<int> :: |indices| >= 2 ==> GoodSides(splits(c, indices).1, |indices|)
    }

    constructor (splits: Splits)
      requires forall c, indices: seq<int> :: |indices| >= 2 ==> GoodSides(splits(c, indices).1, |indices|)
      ensures Valid()
    {
      this.splits, calls := splits, 0;
    }

    method Split(indices: seq<int>) returns (plane: seq<real>, sides: seq<bool>)
      requires Valid() && |indices| >= 2
      modifies this
      ensures GoodSides(sides, |indices|)
      ensures (plane, sides) == splits(old(calls), indices) && calls == old(calls) + 1
    {
      var s := splits(calls, indices);
      plane, sides := s.0, s.1;
      calls := calls + 1;
    }
  }

  ghost predicate GoodSides(sides: seq<bool>, n: nat) {
    |sides| == n && true in sides && false in sides
  }

  lemma {:induction false} OneMoreSide(indices: seq<int>, sides: seq<bool>, i: nat)
    requires i < |indices| == |sides|
    ensures forall side, x :: OnSide(indices[..i + 1], sides, side, x) <==>
        OnSide(indices[..i], sides, side, x) || (indices[i] == x && sides[i] == side)
  {
    forall side, x
      ensures OnSide(indices[..i + 1], sides, side, x) <==>
        OnSide(indices[..i], sides, side, x) || (indices[i] == x && sides[i] == side)
    {
      if OnSide(indices[..i], sides, side, x) {
        var j :| 0 <= j < i && indices[..i][j] == x && sides[j] == side;
        assert indices[..i + 1][j] == x;
      }
      if indices[i] == x && sides[i] == side {
        assert indices[..i + 1][i] == x;
      }
      if OnSide(indices[..i + 1], sides, side, x) {
        var j :| 0 <= j <= i && indices[..i + 1][j] == x && sides[j] == side;
        assert j < i ==> indices[..i][j] == x;
      }
    }
  }

  /** The items of either side, in order. */
  method Partition(indices: seq<int>, sides: seq<bool>) returns (c0: seq<int>, c1: seq<int>)
    requires GoodSides(sides, |indices|)
    ensures multiset(c0) + multiset(c1) == multiset(indices) && |c0| + |c1| == |indices|
    ensures c0 != [] && c1 != []
    ensures forall x ::
      (x in c0 <==> OnSide(indices, sides, false, x)) && (x in c1 <==> OnSide(indices, sides, true, x))
  {
    c0, c1 := [], [];
    var i := 0;
    while i < |indices|
      invariant 0 <= i <= |indices|
      invariant multiset(c0) + multiset(c1) == multiset(indices[..i]) && |c0| + |c1| == i
      invariant false in sides[..i] ==> c0 != []
      invariant true in sides[..i] ==> c1 != []
      invariant forall x ::
        (x in c0 <==> OnSide(indices[..i], sides, false, x)) && (x in c1 <==> OnSide(indices[..i], sides, true, x))
    {
      assert indices[..i + 1] == indices[..i] + [indices[i]];
      assert sides[..i + 1] == sides[..i] + [sides[i]];
      OneMoreSide(indices, sides, i);
      if sides[i] {
        c1 := c1 + [indices[i]];
      } else {
        c0 := c0 + [indices[i]];
      }
      i := i + 1;
    }
    assert indices[..i] == indices && sides[..i] == sides;
  }

  class AnnoyIndex {
    const k: nat  // the descendants that fit into a node
    var nItems: int
    var nNodes: int
    var nodes: seq<Node>
    var roots: seq<int>
    var loaded: bool

    /** All items below nItems were added. */
    ghost predicate Filled()
      reads this
    {
      && 0 <= nItems <= |nodes|
      && forall i :: 0 <= i < nItems ==> nodes[i].nDescendants == 1 && nodes[i].children == [0, 0]
    }

    constructor (k: nat)
      ensures this.k == k && nItems == nNodes == 0 && nodes == [] && roots == [] && !loaded && Filled()
    {
      this.k, nItems, nNodes, nodes, roots, loaded := k, 0, 0, [], [], false;
    }

    /** Room for n nodes; what is added is zero. */
    method AllocateSize(n: int)
      modifies this`nodes
      ensures |nodes| >= n && |nodes| >= |old(nodes)| && nodes[..|old(nodes)|] == old(nodes)
      ensures forall i :: |old(nodes)| <= i < |nodes| ==> nodes[i] == ZERO_NODE
      ensures n <= |old(nodes)| ==> nodes == old(nodes)
    {
      if n > |nodes| {
        var grown := ((|nodes| + 1) as real * 1.3).Floor;
        var newSize := if n > grown then n else grown;
        nodes := nodes + seq(newSize - |nodes|, _ => ZERO_NODE);
      }
    }

    method AddItem(item: nat, w: seq<real>)
      requires 0 <= nItems <= |nodes|
      modifies this`nodes, this`nItems
      ensures nItems == if item >= old(nItems) then item + 1 else old(nItems)
      ensures |nodes| >= nItems && |nodes| >= |old(nodes)| && item < |nodes| && nodes[item] == Node(1, [0, 0], w)
      ensures forall i :: 0 <= i < |old(nodes)| && i != item ==> nodes[i] == old(nodes)[i]
      ensures old(Filled()) && item <= old(nItems) ==> Filled()
    {
      AllocateSize(item + 1);
      assert forall i :: 0 <= i < |old(nodes)| ==> nodes[..|old(nodes)|][i] == nodes[i];
      nodes := nodes[item := Node(1, [0, 0], w)];
      if item >= nItems {
        nItems := item + 1;
      }
    }

    /** A node is put behind the ones in use. */
    method AppendNode(m: Node) returns (item: int)
      requires 0 <= nNodes <= |nodes|
      modifies this`nodes, this`nNodes
      ensures item == old(nNodes) && nNodes == item + 1 <= |nodes| && nodes[item] == m
      ensures |nodes| >= |old(nodes)| && nodes[..item] == old(nodes[..nNodes])
    {
      ghost var was := nodes;
      AllocateSize(nNodes + 1);
      assert nodes[..|was|][..nNodes] == nodes[..nNodes];
      item := nNodes;
      nNodes := nNodes + 1;
      nodes := nodes[item := m];
    }

    /** A tree over these items; its nodes are appended, the root last. */
    method MakeTree(indices: seq<int>, rng: Splitter) returns (item: int)
      requires Filled() && nItems <= nNodes <= |nodes| && rng.Valid() && k >= 2
      requires forall j :: j in indices ==> 0 <= j < nItems
      modifies this`nodes, this`nNodes, rng
      ensures Filled() && Made(old(nodes[..nNodes]), nodes, nItems, k, nNodes, indices, item)
      ensures SplitBy(nodes, nItems, k, rng.splits, item)
      decreases |indices|
    {
      if |indices| == 1 {
        assert indices[0] in indices;
        LeafMade(nodes, nItems, k, nNodes, indices);
        return indices[0];
      }
      if |indices| <= k {
        ghost var was := nodes[..nNodes];
        item := AppendNode(Node(|indices|, if |indices| == 0 then [0, 0] else indices, []));
        SmallMade(was, nodes, nItems, k, indices);
        return;
      }
      item := MakeInner(indices, rng);
    }

    /** An inner node: a split, the two subtrees, and the node itself behind them. */
    method MakeInner(indices: seq<int>, rng: Splitter) returns (item: int)
      requires Filled() && nItems <= nNodes <= |nodes| && rng.Valid() && |indices| > k >= 2
      requires forall j :: j in indices ==> 0 <= j < nItems
      modifies this`nodes, this`nNodes, rng
      ensures Filled() && Made(old(nodes[..nNodes]), nodes, nItems, k, nNodes, indices, item)
      ensures SplitBy(nodes, nItems, k, rng.splits, item)
      decreases |indices|, 2
    {
      hide Made, SplitBy;
      ghost var c := rng.calls;
      var plane, sides := rng.Split(indices);
      var c0, c1 := Partition(indices, sides);
      SubItems(c0, c1, indices, nItems);
      item := MakeParent(indices, c0, c1, plane, c, rng);
    }

    /** The subtrees of a split and the node with its hyperplane. */
    method MakeParent(indices: seq<int>, c0: seq<int>, c1: seq<int>, plane: seq<real>, ghost c: nat, rng: Splitter)
      returns (item: int)
      requires Filled() && nItems <= nNodes <= |nodes| && rng.Valid() && |indices| > k >= 2
      requires multiset(c0) + multiset(c1) == multiset(indices) && |c0| + |c1| == |indices| && c0 != [] && c1 != []
      requires forall j :: j in c0 || j in c1 ==> 0 <= j < nItems
      requires SplitInto(rng.splits, c, indices, plane, c0, c1)
      modifies this`nodes, this`nNodes, rng
      ensures Filled() && Made(old(nodes[..nNodes]), nodes, nItems, k, nNodes, indices, item)
      ensures SplitBy(nodes, nItems, k, rng.splits, item)
      decreases |indices|, 1
    {
      hide Made, MadeBoth, SplitBy, SplitInto, Tree, Items;
      ghost var was := nodes[..nNodes];
      var i0, i1: int;
      i0, i1 := MakeChildren(indices, c0, c1, rng);
      ghost var full, m := nodes, nNodes;
      MadeBothUsed(was, full, nItems, k, m, c0, c1, i0, i1);
      item := AppendNode(Node(|indices|, [i0, i1], plane));
      InnerDone(was, full, m, nodes, nItems, k, c, c0, c1, indices, i0, i1, plane, rng.splits);
    }

    /** The two subtrees, the smaller one first. */
    method MakeChildren(ghost indices: seq<int>, c0: seq<int>, c1: seq<int>, rng: Splitter) returns (i0: int, i1: int)
      requires Filled() && nItems <= nNodes <= |nodes| && rng.Valid() && k >= 2
      requires 0 < |c0| < |indices| && 0 < |c1| < |indices|
      requires forall j :: j in c0 || j in c1 ==> 0 <= j < nItems
      modifies this`nodes, this`nNodes, rng
      ensures Filled() && MadeBoth(old(nodes[..nNodes]), nodes, nItems, k, nNodes, c0, c1, i0, i1)
      ensures SplitBy(nodes, nItems, k, rng.splits, i0) && SplitBy(nodes, nItems, k, rng.splits, i1)
      decreases |indices|, 0
    {
      ghost var was := nodes[..nNodes];
      if |c0| > |c1| {
        i1 := MakeTree(c1, rng);
        ghost var full, m := nodes, nNodes;
        i0 := MakeTree(c0, rng);
        BothMade(was, full, m, nodes, nItems, k, nNodes, c1, c0, i1, i0);
        PrefixSplit(full, m, nodes, nItems, k, rng.splits, i1);
      } else {
        i0 := MakeTree(c0, rng);
        ghost var full, m := nodes, nNodes;
        i1 := MakeTree(c1, rng);
        BothMade(was, full, m, nodes, nItems, k, nNodes, c0, c1, i0, i1);
        PrefixSplit(full, m, nodes, nItems, k, rng.splits, i0);
      }
    }

    /**
     q trees over all items, or with q == -1 trees until the nodes are twice the items; then copies of
     the roots. With q == -1 and a single item the loop would not end, see OneItemForever.
     */
    method Build(q: int, rng: Splitter) returns (ghost saved: seq<Node>, ghost m: int)
      requires Filled() && roots == [] && rng.Valid() && k >= 2
      requires q >= 0 || (q == -1 && nItems != 1)
      modifies this`nodes, this`nNodes, this`roots, rng
      ensures loaded ==> nodes == old(nodes) && nNodes == old(nNodes) && roots == []
      ensures !loaded ==> 0 <= nNodes <= |nodes| && saved == nodes[..nNodes]
      ensures !loaded ==> Saved(saved, nItems, k, m, roots) && nNodes == m + |roots|
      ensures !loaded && q >= 0 ==> |roots| == q
      ensures !loaded ==> AllSplit(nodes, nItems, k, rng.splits, roots)
      ensures !loaded && q == -1 && nItems > 0 ==> nNodes >= 2 * nItems + |roots|
    {
      hide Saved, Planted, AllSplit;
      if loaded {
        saved, m := nodes, nNodes;
      } else {
        saved, m := BuildForest(q, rng);
      }
    }

    method BuildForest(q: int, rng: Splitter) returns (ghost saved: seq<Node>, ghost m: int)
      requires Filled() && roots == [] && rng.Valid() && k >= 2
      requires q >= 0 || (q == -1 && nItems != 1)
      modifies this`nodes, this`nNodes, this`roots, rng
      ensures 0 <= nNodes <= |nodes| && saved == nodes[..nNodes]
      ensures Saved(saved, nItems, k, m, roots) && nNodes == m + |roots|
      ensures if q == -1 then nNodes >= nItems * 2 + |roots| else |roots| == q
      ensures AllSplit(nodes, nItems, k, rng.splits, roots)
    {
      nNodes := nItems;
      NothingPlanted(nodes, nItems, k);
      NoneSplit(nodes, nItems, k, rng.splits);
      hide *;
      PlantTrees(q, rng);
      m := nNodes;
      saved := CopySplitRoots(rng.splits);
    }

    method PlantTrees(q: int, rng: Splitter)
      requires Filled() && Planted(nodes, nItems, k, nNodes, roots) && rng.Valid() && k >= 2 && |roots| == 0
      requires q >= 0 || (q == -1 && nItems != 1)
      requires AllSplit(nodes, nItems, k, rng.splits, roots)
      modifies this`nodes, this`nNodes, this`roots, rng
      ensures Filled() && Planted(nodes, nItems, k, nNodes, roots)
      ensures if q == -1 then nNodes >= nItems * 2 else |roots| == q
      ensures AllSplit(nodes, nItems, k, rng.splits, roots)
    {
      while if q == -1 then nNodes < nItems * 2 else |roots| < q
        invariant Filled() && Planted(nodes, nItems, k, nNodes, roots)
        invariant q >= 0 ==> |roots| <= q
        invariant AllSplit(nodes, nItems, k, rng.splits, roots)
        decreases if q == -1 then nItems * 2 - nNodes else q - |roots|
      {
        AddTree(rng);
      }
    }

    method AddTree(rng: Splitter)
      requires Filled() && Planted(nodes, nItems, k, nNodes, roots) && rng.Valid() && k >= 2
      modifies this`nodes, this`nNodes, this`roots, rng
      ensures Filled() && Planted(nodes, nItems, k, nNodes, roots) && |roots| == |old(roots)| + 1
      ensures nNodes >= old(nNodes) && (nNodes > old(nNodes) <==> nItems != 1)
      ensures old(AllSplit(nodes, nItems, k, rng.splits, roots)) ==> AllSplit(nodes, nItems, k, rng.splits, roots)
    {
      hide Planted, AllSplit;
      var root := PlantTree(rng);
      roots := roots + [root];
    }

    /** The tree; its root is not listed yet. */
    method PlantTree(rng: Splitter) returns (root: int)
      requires Filled() && Planted(nodes, nItems, k, nNodes, roots) && rng.Valid() && k >= 2
      modifies this`nodes, this`nNodes, rng
      ensures Filled() && Planted(nodes, nItems, k, nNodes, roots + [root])
      ensures nNodes >= old(nNodes) && (nNodes > old(nNodes) <==> nItems != 1)
      ensures old(AllSplit(nodes, nItems, k, rng.splits, roots)) ==>
        AllSplit(nodes, nItems, k, rng.splits, roots + [root])
    {
      PlantedItems(nodes, nItems, k, nNodes, roots);
      var indices := Numbers(nItems);
      ghost var was, m := nodes, nNodes;
      assert forall j :: j in indices ==> 0 <= j < nItems;
      hide *;
      root := MakeTree(indices, rng);
      TreeAdded(was, m, nodes, nItems, k, nNodes, roots, indices, root, rng.splits);
    }

    /** Over a single item any number of trees is planted without a node more, far from twice the items. */
    method OneItemForever(passes: nat, rng: Splitter)
      requires Filled() && Planted(nodes, nItems, k, nNodes, roots) && rng.Valid() && k >= 2 && nItems == 1
      modifies this`nodes, this`nNodes, this`roots, rng
      ensures |roots| == |old(roots)| + passes && nNodes == old(nNodes) < nItems * 2
    {
      var i := 0;
      while i < passes
        invariant 0 <= i <= passes && |roots| == |old(roots)| + i
        invariant Filled() && Planted(nodes, nItems, k, nNodes, roots)
      {
        AddTree(rng);
        i := i + 1;
      }
    }

    /** What save writes: the nodes in use. */
    method Save() returns (file: seq<Node>)
      requires 0 <= nNodes <= |nodes|
      ensures file == nodes[..nNodes]
    {
      file := nodes[..nNodes];
    }

    /** The roots are copied to the end. */
    method CopyRoots() returns (ghost saved: seq<Node>)
      requires Planted(nodes, nItems, k, nNodes, roots)
      modifies this`nodes, this`nNodes
      ensures nNodes == old(nNodes) + |roots| <= |nodes| && nodes[..old(nNodes)] == old(nodes[..nNodes])
      ensures saved == nodes[..nNodes] && Saved(saved, nItems, k, old(nNodes), roots)
    {
      ghost var was := nodes;
      CopyNodes();
      saved := SavedCopies(was, nodes, nItems, k, nNodes, roots);
      nNodes := nNodes + |roots|;
    }

    method CopySplitRoots(ghost splits: Splits) returns (ghost saved: seq<Node>)
      requires Planted(nodes, nItems, k, nNodes, roots) && AllSplit(nodes, nItems, k, splits, roots)
      modifies this`nodes, this`nNodes
      ensures nNodes == old(nNodes) + |roots| <= |nodes|
      ensures saved == nodes[..nNodes] && Saved(saved, nItems, k, old(nNodes), roots)
      ensures AllSplit(nodes, nItems, k, splits, roots)
    {
      ghost var was, m := nodes, nNodes;
      RootsBelow(nodes, nItems, k, nNodes, roots);
      hide *;
      saved := CopyRoots();
      AllSplitStays(was, nodes, m, nItems, k, splits, roots);
    }

    method CopyNodes()
      requires 0 <= nNodes <= |nodes| && forall j :: 0 <= j < |roots| ==> 0 <= roots[j] < nNodes
      modifies this`nodes
      ensures |nodes| >= nNodes + |roots| && CopiedRoots(old(nodes), nodes, nNodes, roots)
    {
      AllocateSize(nNodes + |roots|);
      assert nodes[..|old(nodes)|][..nNodes] == nodes[..nNodes];
      var i := 0;
      while i < |roots|
        invariant 0 <= i <= |roots|
        invariant |nodes| >= nNodes + |roots| && |nodes| >= |old(nodes)| && nodes[..nNodes] == old(nodes[..nNodes])
        invariant forall j :: 0 <= j < i ==> nodes[nNodes + j] == old(nodes)[roots[j]]
      {
        assert nodes[..nNodes][roots[i]] == old(nodes[..nNodes])[roots[i]];
        nodes := nodes[nNodes + i := nodes[roots[i]]];
        i := i + 1;
      }
    }

    /** A saved index is read back; the roots are looked for from the end. */
    method Load(saved: seq<Node>)
      requires roots == [] && Sized(saved)
      modifies this
      ensures nodes == saved && nNodes == |saved| && loaded && roots == Recovered(saved)
      ensures nItems == if saved == [] then -1 else saved[|saved| - 1].nDescendants
    {
      nodes, nNodes := saved, |saved|;
      var m := FindRoots(saved);
      if |roots| > 1 && nodes[roots[0]].children[0] == nodes[roots[|roots| - 1]].children[0] {
        roots := roots[..|roots| - 1];
      }
      loaded := true;
      nItems := m;
    }

    /** The scan from the end for nodes with as many descendants as the last one. */
    method FindRoots(saved: seq<Node>) returns (m: int)
      requires roots == [] && Sized(saved) && nodes == saved && nNodes == |saved|
      modifies this`roots
      ensures m == if saved == [] then -1 else saved[|saved| - 1].nDescendants
      ensures |roots| == if saved == [] then 0 else Run(saved, m, |saved| - 1)
      ensures |roots| <= |saved| && roots == Down(|saved| - 1, |roots|)
    {
      m := -1;
      var i := nNodes - 1;
      while i >= 0 && (m == -1 || nodes[i].nDescendants == m)
        invariant -1 <= i < |saved| && |roots| == |saved| - 1 - i && roots == Down(|saved| - 1, |roots|)
        invariant m == if i == |saved| - 1 then -1 else saved[|saved| - 1].nDescendants
        invariant forall j :: i < j < |saved| ==> saved[j].nDescendants == m
      {
        roots := roots + [i];
        m := nodes[i].nDescendants;
        i := i - 1;
      }
      if saved != [] {
        RunIs(saved, m, |saved| - 1, i);
      }
    }

    /** The roots lead to trees. */
    ghost predicate Searchable()
      reads this
    {
      && k >= 2 && (forall j :: 0 <= j < |roots| ==> Tree(nodes, nItems, k, roots[j]))
      && forall x :: x in Forest(nodes, nItems, k, roots) ==> 0 <= x < nItems
    }

    /** Items from the trees, the most promising branches first, until there are enough of them. */
    method Gather(margin: seq<real> -> real, searchK: nat) returns (nns: seq<int>, ghost run: seq<State>)
      requires Searchable()
      ensures BestFirst(nodes, k, margin, roots, searchK, run) && run[|run| - 1].items == nns
      ensures |nns| >= searchK || run[|run| - 1].queue == []
      ensures multiset(nns) <= Forest(nodes, nItems, k, roots)
      ensures |nns| >= searchK || multiset(nns) == Forest(nodes, nItems, k, roots)
    {
      assert k >= 2;
      hide *;
      var q := QueueRoots();
      nns := [];
      SearchStarts(nodes, k, margin, roots, searchK, q);
      run := [State(q, [])];
      while |nns| < searchK && q != []
        invariant run != [] && run[|run| - 1] == State(q, nns) && BestFirst(nodes, k, margin, roots, searchK, run)
        invariant Trees(nodes, nItems, k, q)
        invariant Pending(nodes, nItems, k, q) + multiset(nns) == Forest(nodes, nItems, k, roots)
        decreases Sizes(nodes, nItems, k, q)
      {
        q, nns, run := NextState(margin, searchK, q, nns, run);
      }
      NonePending(nodes, nItems, k, q);
    }

    /** All roots, at infinity. */
    method QueueRoots() returns (q: seq<Entry>)
      requires Searchable()
      ensures |q| == |roots| && forall j :: 0 <= j < |roots| ==> q[j] == Entry(Infinity, roots[j])
      ensures Trees(nodes, nItems, k, q) && Pending(nodes, nItems, k, q) == Forest(nodes, nItems, k, roots)
    {
      q := [];
      NoRoots(nodes, nItems, k, roots);
      hide RootsQueued;
      var i := 0;
      while i < |roots|
        invariant 0 <= i <= |roots| && RootsQueued(nodes, nItems, k, roots, q, i)
      {
        RootQueued(nodes, nItems, k, roots, q, i);
        q := q + [Entry(Infinity, roots[i])];
        i := i + 1;
      }
      AllQueued(nodes, nItems, k, roots, q);
    }

    /** A step, noted in the run. */
    method NextState(margin: seq<real> -> real, searchK: nat, q: seq<Entry>, nns: seq<int>, ghost run: seq<State>)
      returns (q': seq<Entry>, nns': seq<int>, ghost run': seq<State>)
      requires q != [] && k >= 2 && Trees(nodes, nItems, k, q) && |nns| < searchK
      requires run != [] && run[|run| - 1] == State(q, nns) && BestFirst(nodes, k, margin, roots, searchK, run)
      ensures run' != [] && run'[|run'| - 1] == State(q', nns') && BestFirst(nodes, k, margin, roots, searchK, run')
      ensures Trees(nodes, nItems, k, q') && Sizes(nodes, nItems, k, q') < Sizes(nodes, nItems, k, q)
      ensures Pending(nodes, nItems, k, q') + multiset(nns') == Pending(nodes, nItems, k, q) + multiset(nns)
    {
      hide *;
      q', nns' := Step(margin, q, nns);
      ghost var m: int :| 0 <= m < |q| && Stepped(nodes, k, margin, q, nns, m, q', nns');
      SteppedSound(nodes, nItems, k, margin, q, nns, m, q', nns');
      StepIs(nodes, k, margin, q, nns, m, q', nns');
      BestFirstNext(nodes, k, margin, roots, searchK, run, State(q', nns'));
      run' := run + [State(q', nns')];
    }

    /** The greatest entry of the queue is taken out. */
    method PopTop(q: seq<Entry>) returns (top: Entry, rest: seq<Entry>)
      requires q != []
      ensures (exists m :: TakenOut(q, m, top, rest)) && forall e :: e in q ==> First(top, e)
    {
      var m := 0;
      var i := 1;
      while i < |q|
        invariant 1 <= i <= |q| && 0 <= m < i
        invariant forall j :: 0 <= j < i ==> !EntryLess(q[m], q[j])
      {
        if EntryLess(q[m], q[i]) {
          m := i;
        }
        i := i + 1;
      }
      top := q[m];
      rest := q[..m] + q[m + 1..];
      assert TakenOut(q, m, top, rest);
    }

    /** One node: an item or a small node gives its items, an inner node its two subtrees. */
    method Step(margin: seq<real> -> real, q: seq<Entry>, nns: seq<int>)
      returns (q': seq<Entry>, nns': seq<int>)
      requires q != [] && k >= 2 && Trees(nodes, nItems, k, q)
      ensures exists m :: 0 <= m < |q| && Stepped(nodes, k, margin, q, nns, m, q', nns')
    {
      var top: Entry;
      top, q' := PopTop(q);
      ghost var m: int :| TakenOut(q, m, top, q');
      assert Tree(nodes, nItems, k, q[m].node);
      var nd := nodes[top.node];
      nns' := nns;
      if nd.nDescendants == 1 {
        nns' := nns + [top.node];
      } else if nd.nDescendants <= k {
        nns' := nns + nd.children[..nd.nDescendants];
      } else {
        var d := margin(nodes[top.node].v);
        q' := q' + [Entry(Least(top.priority, d), nd.children[1])];
        q' := q' + [Entry(Least(top.priority, -d), nd.children[0])];
      }
      assert Stepped(nodes, k, margin, q, nns, m, q', nns');
    }

    /** The n nearest of the gathered items by (distance, id), and the number of gathered items behind them. */
    method GetAllNns(dist: int -> real, margin: seq<real> -> real, n: nat, searchK: Option<nat>)
      returns (result: seq<int>, distances: seq<real>, ghost gathered: seq<int>, ghost run: seq<State>)
      requires Searchable()
      ensures BestFirst(nodes, k, margin, roots, Budget(n, |roots|, searchK), run)
      ensures var last := run[|run| - 1];
        && (|last.items| >= Budget(n, |roots|, searchK) || last.queue == [])
        && forall x :: x in gathered <==> x in last.items
      ensures Ascending(gathered) && forall x :: x in gathered ==> x in Forest(nodes, nItems, k, roots)
      ensures |Forest(nodes, nItems, k, roots)| <= Budget(n, |roots|, searchK) ==>
                forall x :: x in Forest(nodes, nItems, k, roots) ==> x in gathered
      ensures NearestOf(dist, gathered, n, result)
      ensures result == Scan(dist, gathered, n) + [|gathered|]
      ensures |distances| == |result| - 1 && forall i :: 0 <= i < |distances| ==> distances[i] == dist(result[i])
      ensures Complete(nodes, nItems, k, roots) && nItems * |roots| <= Budget(n, |roots|, searchK) ==>
                result == Scan(dist, Numbers(nItems), n) + [nItems]
    {
      var budget := Budget(n, |roots|, searchK);
      var nns: seq<int>;
      nns, run := Gather(margin, budget);
      GatheredAll(nodes, nItems, k, roots, nns, budget);
      var pairs := Measure(dist, nns);
      gathered := IdsOf(pairs);
      result, distances := Report(dist, pairs, gathered, n);
      Everything(nodes, nItems, k, roots, gathered, budget);
      ScanNearest(dist, gathered, n);
    }
  }

  /** An index that was just built answers a query with a sufficient budget as a linear scan does. */
  method BuildAndQuery(index: AnnoyIndex, q: nat, rng: Splitter, dist: int -> real, margin: seq<real> -> real, n: nat,
                       searchK: Option<nat>)
    returns (result: seq<int>, distances: seq<real>)
    requires index.Filled() && index.roots == [] && !index.loaded && index.k >= 2 && rng.Valid() && q > 0
    modifies index`nodes, index`nNodes, index`roots, rng
    ensures |index.roots| == q
    ensures index.nItems * q <= Budget(n, q, searchK) ==>
      result == Scan(dist, Numbers(index.nItems), n) + [index.nItems]
  {
    ghost var saved, m := index.Build(q, rng);
    BuiltComplete(index.nodes, saved, index.nItems, index.k, m, index.roots);
    CompleteForest(index.nodes, index.nItems, index.k, index.roots);
    ghost var gathered, run;
    result, distances, gathered, run := index.GetAllNns(dist, margin, n, searchK);
  }

  /**
   Built, saved, loaded into another index and searched: with a sufficient budget the answer is that of a
   linear scan over all items. A single item is the exception: its copies are no items, see RecoveredSingle.
   */
  method BuildLoadAndQuery(index: AnnoyIndex, reader: AnnoyIndex, q: nat, rng: Splitter, dist: int -> real,
                           margin: seq<real> -> real, n: nat, searchK: Option<nat>)
    returns (result: seq<int>, distances: seq<real>)
    requires index.Filled() && index.roots == [] && !index.loaded && index.k >= 2 && rng.Valid() && q > 0
    requires reader != index && reader.roots == [] && reader.k == index.k && index.nItems != 1
    modifies index`nodes, index`nNodes, index`roots, rng, reader
    ensures |reader.roots| == if index.nItems > index.k then q else 2 * q - 1
    ensures index.nItems * |reader.roots| <= Budget(n, |reader.roots|, searchK) ==>
      result == Scan(dist, Numbers(index.nItems), n) + [index.nItems]
  {
    var file := BuildAndSave(index, q, rng);
    result, distances := LoadAndQuery(reader, file, index.nItems, q, dist, margin, n, searchK);
  }

  /** A file with q trees over n items. */
  ghost predicate SavedTrees(file: seq<Node>, n: int, k: nat, q: nat) {
    exists nNodes: int, roots: seq<int> :: Saved(file, n, k, nNodes, roots) && |roots| == q
  }

  method BuildAndSave(index: AnnoyIndex, q: nat, rng: Splitter) returns (file: seq<Node>)
    requires index.Filled() && index.roots == [] && !index.loaded && index.k >= 2 && rng.Valid()
    modifies index`nodes, index`nNodes, index`roots, rng
    ensures SavedTrees(file, index.nItems, index.k, q)
  {
    ghost var saved, m := index.Build(q, rng);
    file := index.Save();
  }

  method LoadAndQuery(reader: AnnoyIndex, file: seq<Node>, ghost nItems: int, ghost q: nat,
                      dist: int -> real, margin: seq<real> -> real, n: nat, searchK: Option<nat>)
    returns (result: seq<int>, distances: seq<real>)
    requires SavedTrees(file, nItems, reader.k, q) && reader.k >= 2 && q > 0 && nItems != 1
    requires reader.roots == []
    modifies reader
    ensures |reader.roots| == if nItems > reader.k then q else 2 * q - 1
    ensures nItems * |reader.roots| <= Budget(n, |reader.roots|, searchK) ==>
      result == Scan(dist, Numbers(nItems), n) + [nItems]
  {
    RecoveredComplete(file, nItems, reader.k, q);
    reader.Load(file);
    CompleteForest(reader.nodes, reader.nItems, reader.k, reader.roots);
    ghost var gathered, run;
    result, distances, gathered, run := reader.GetAllNns(dist, margin, n, searchK);
  }

  /** Whatever number of items there is but one, the loaded roots lead to trees over all of them. */
  lemma {:induction false} RecoveredComplete(file: seq<Node>, n: int, k: nat, q: nat)
    requires SavedTrees(file, n, k, q) && k >= 2 && n != 1 && q > 0
    ensures Sized(file) && Complete(file, n, k, Recovered(file)) && file[|file| - 1].nDescendants == n
    ensures |Recovered(file)| == if n > k then q else 2 * q - 1
  {
    var nNodes: int, roots: seq<int> :| Saved(file, n, k, nNodes, roots) && |roots| == q;
    SavedSized(file, n, k, nNodes, roots);
    RecoveredTrees(file, n, k, nNodes, roots);
  }

  lemma {:induction false} RecoveredTrees(nodes: seq<Node>, n: int, k: nat, nNodes: int, roots: seq<int>)
    requires Saved(nodes, n, k, nNodes, roots) && Sized(nodes) && k >= 2 && n != 1 && roots != []
    ensures Complete(nodes, n, k, Recovered(nodes)) && nodes[|nodes| - 1].nDescendants == n
    ensures |Recovered(nodes)| == if n > k then |roots| else 2 * |roots| - 1
  {
    if n > k {
      RecoveredMany(nodes, n, k, nNodes, roots);
    } else {
      RecoveredFew(nodes, n, k, nNodes, roots);
    }
    assert RootOk(nodes, n, k, Recovered(nodes)[0]);
  }

  /** The numbers below n. */
  function Numbers(n: int): (s: seq<int>)
    ensures |s| == if n < 0 then 0 else n
  {
    seq(if n < 0 then 0 else n, i => i)
  }

  /** There are trees, each over all items. */
  ghost predicate Complete(nodes: seq<Node>, n: int, k: nat, roots: seq<int>) {
    n >= 0 && roots != [] && forall j :: 0 <= j < |roots| ==> RootOk(nodes, n, k, roots[j])
  }

  /** Every item is in every tree, once. */
  lemma {:induction false} ForestOfAll(nodes: seq<Node>, n: nat, k: nat, roots: seq<int>)
    requires forall j :: 0 <= j < |roots| ==> RootOk(nodes, n, k, roots[j])
    ensures forall j :: 0 <= j < |roots| ==> Tree(nodes, n, k, roots[j])
    ensures |Forest(nodes, n, k, roots)| == n * |roots|
    ensures forall x :: Forest(nodes, n, k, roots)[x] == if 0 <= x < n then |roots| else 0
  {
    if roots != [] {
      var front, last := roots[..|roots| - 1], roots[|roots| - 1];
      ForestOfAll(nodes, n, k, front);
      assert RootOk(nodes, n, k, last);
      AllOnce(n);
      OneMoreTree(Forest(nodes, n, k, front), AllItems(n), n, |front|);
    }
  }

  lemma OneMoreTree(some: multiset<int>, all: multiset<int>, n: nat, q: nat)
    requires |some| == n * q && |all| == n
    ensures |some + all| == n * (q + 1)
  {
  }

  lemma {:induction false} AllOnce(n: nat)
    ensures |AllItems(n)| == n && forall x :: AllItems(n)[x] == if 0 <= x < n then 1 else 0
  {
    var s := seq(n, i => i);
    forall x
      ensures AllItems(n)[x] == if 0 <= x < n then 1 else 0
    {
      DistinctMultiplicity(s, x);
      if 0 <= x < n {
        assert s[x] == x;
      }
    }
  }

  /** When the budget does not bind, every item is gathered. */
  lemma {:induction false} Everything(nodes: seq<Node>, n: int, k: nat, roots: seq<int>, gathered: seq<int>,
                                      budget: nat)
    requires forall j :: 0 <= j < |roots| ==> Tree(nodes, n, k, roots[j])
    requires Ascending(gathered) && forall x :: x in gathered ==> x in Forest(nodes, n, k, roots)
    requires |Forest(nodes, n, k, roots)| <= budget ==> forall x :: x in Forest(nodes, n, k, roots) ==> x in gathered
    ensures Complete(nodes, n, k, roots) && n * |roots| <= budget ==> gathered == Numbers(n)
  {
    if Complete(nodes, n, k, roots) && n * |roots| <= budget {
      ForestOfAll(nodes, n, k, roots);
      AscendingNumbers(gathered, n);
    }
  }

  lemma {:induction false} AscendingNumbers(s: seq<int>, n: nat)
    requires Ascending(s) && forall x :: x in s <==> 0 <= x < n
    ensures s == Numbers(n)
  {
    forall i | 0 <= i < |s|
      ensures s[i] == i
    {
      AscendingAt(s, n, i);
    }
    forall x | x in s
      ensures x < |s|
    {
    }
    assert |s| !in s;
    if s != [] {
      assert s[|s| - 1] in s;
    }
  }

  lemma {:induction false} AscendingAt(s: seq<int>, n: nat, i: nat)
    requires Ascending(s) && (forall x :: x in s <==> 0 <= x < n) && i < |s|
    ensures s[i] == i
  {
    if i > 0 {
      AscendingAt(s, n, i - 1);
    }
    assert s[i] in s;
    assert i in s;
    var j :| 0 <= j < |s| && s[j] == i;
    assert j >= i;
  }

  /**
   An answer from these items: n of them, or all, nearest first and at equal distance the lesser one first,
   no other one in front of any of them; and behind them how many items there were.
   */
  ghost predicate NearestOf(dist: int -> real, ids: seq<int>, n: nat, result: seq<int>) {
    && |result| == (if n < |ids| then n else |ids|) + 1 && result[|result| - 1] == |ids|
    && var r := result[..|result| - 1];
       && (forall x :: x in r ==> x in ids)
       && (forall i, j :: 0 <= i < j < |r| ==>
         dist(r[i]) < dist(r[j]) || (dist(r[i]) == dist(r[j]) && r[i] < r[j]))
       && forall i, x :: 0 <= i < |r| && x in ids && x !in r ==>
         dist(r[i]) < dist(x) || (dist(r[i]) == dist(x) && r[i] < x)
  }

  /** A scan lists the nearest items by distance, then id. */
  lemma {:induction false} ScanNearest(dist: int -> real, ids: seq<int>, n: nat)
    requires Ascending(ids)
    ensures NearestOf(dist, ids, n, Scan(dist, ids, n) + [|ids|])
  {
    var sorted, r := Sort(Pairs(dist, ids), RankedLess), Scan(dist, ids, n);
    SortedPairs(dist, ids);
    hide Sort, Ascending;
    assert (r + [|ids|])[..|r|] == r;
    forall i, x | 0 <= i < |r| && x in ids && x !in r
      ensures RankedLess(Ranked(dist(r[i]), r[i]), Ranked(dist(x), x))
    {
      Unlisted(dist, sorted, r, i, x);
    }
    forall i, j | 0 <= i < j < |r|
      ensures RankedLess(Ranked(dist(r[i]), r[i]), Ranked(dist(r[j]), r[j]))
    {
      assert RankedLess(sorted[i], sorted[j]);
    }
  }

  /** What is not listed comes behind what is. */
  lemma {:induction false} Unlisted(dist: int -> real, sorted: seq<Ranked>, r: seq<int>, i: nat, x: int)
    requires |r| <= |sorted| && r == IdsOf(sorted[..|r|]) && i < |r| && x !in r && Ranked(dist(x), x) in sorted
    requires forall j, k :: 0 <= j < k < |sorted| ==> RankedLess(sorted[j], sorted[k])
    ensures RankedLess(sorted[i], Ranked(dist(x), x))
  {
    var z :| 0 <= z < |sorted| && sorted[z] == Ranked(dist(x), x);
    assert forall y :: 0 <= y < |r| ==> r[y] in r && sorted[y].id == r[y];
  }

  /** The sorted pairs: every item once, strictly in order. */
  lemma {:induction false} SortedPairs(dist: int -> real, ids: seq<int>)
    requires Ascending(ids)
    ensures var sorted := Sort(Pairs(dist, ids), RankedLess);
      && |sorted| == |ids|
      && (forall i :: 0 <= i < |sorted| ==>
          sorted[i].id in ids && sorted[i] == Ranked(dist(sorted[i].id), sorted[i].id))
      && (forall i, j :: 0 <= i < j < |sorted| ==> RankedLess(sorted[i], sorted[j]))
      && (forall x :: x in ids ==> Ranked(dist(x), x) in sorted)
  {
    var pairs, sorted := Pairs(dist, ids), Sort(Pairs(dist, ids), RankedLess);
    RankedOrder();
    SortCorrect(pairs, RankedLess);
    hide Sort;
    forall i | 0 <= i < |sorted|
      ensures sorted[i].id in ids && sorted[i] == Ranked(dist(sorted[i].id), sorted[i].id)
    {
      assert sorted[i] in pairs;
    }
    forall i, j | 0 <= i < j < |sorted|
      ensures RankedLess(sorted[i], sorted[j])
    {
      assert !RankedLess(sorted[j], sorted[i]);
      SortDistinct(pairs, sorted, i, j);
    }
    forall x | x in ids
      ensures Ranked(dist(x), x) in sorted
    {
      var y :| 0 <= y < |ids| && ids[y] == x;
      assert pairs[y] in pairs;
    }
  }

  /** Different pairs stay different when sorted. */
  lemma {:induction false} SortDistinct(pairs: seq<Ranked>, sorted: seq<Ranked>, i: nat, j: nat)
    requires multiset(pairs) == multiset(sorted) && Distinct(pairs) && i < j < |sorted|
    ensures sorted[i] != sorted[j]
  {
    DistinctMultiplicity(pairs, sorted[i]);
    assert sorted == sorted[..j] + sorted[j..];
    assert sorted[..j][i] == sorted[i] && sorted[j..][0] == sorted[j];
    assert multiset(sorted) == multiset(sorted[..j]) + multiset(sorted[j..]);
    assert sorted[i] in multiset(sorted[..j]) && sorted[j] in multiset(sorted[j..]);
  }

  /** The number of items to gather; by default n for every tree. */
  function Budget(n: nat, trees: nat, searchK: Option<nat>): nat {
    if searchK.Some? then searchK.value else n * trees
  }

  /** An item with its distance. */
  datatype Ranked = Ranked(dist: real, id: int)

  predicate RankedLess(a: Ranked, b: Ranked) {
    a.dist < b.dist || (a.dist == b.dist && a.id < b.id)
  }

  lemma RankedOrder()
    ensures StrictWeakOrder(RankedLess)
  {
  }

  ghost predicate Ascending(ids: seq<int>) {
    forall i, j :: 0 <= i < j < |ids| ==> ids[i] < ids[j]
  }

  function Pairs(dist: int -> real, ids: seq<int>): (s: seq<Ranked>)
    ensures |s| == |ids|
  {
    seq(|ids|, i requires 0 <= i < |ids| => Ranked(dist(ids[i]), ids[i]))
  }

  function IdsOf(s: seq<Ranked>): (ids: seq<int>)
    ensures |ids| == |s|
  {
    seq(|s|, i requires 0 <= i < |s| => s[i].id)
  }

  /** The ids of the n least pairs of distance and id: a linear scan. */
  function Scan(dist: int -> real, ids: seq<int>, n: nat): seq<int> {
    var sorted := Sort(Pairs(dist, ids), RankedLess);
    IdsOf(sorted[..if n < |sorted| then n else |sorted|])
  }

  ghost predicate Ordered(ids: seq<int>) {
    forall i, j :: 0 <= i < j < |ids| ==> ids[i] <= ids[j]
  }

  /** std::sort on ids. */
  method SortIds(nns: seq<int>) returns (sorted: seq<int>)
    ensures Ordered(sorted) && forall x :: x in sorted <==> x in nns
  {
    var less := (a: int, b: int) => a < b;
    sorted := Sort(nns, less);
    SortCorrect(nns, less);
    forall i, j | 0 <= i < j < |sorted|
      ensures sorted[i] <= sorted[j]
    {
      assert !less(sorted[j], sorted[i]);
    }
  }

  /** Every gathered item once, with its distance. */
  method Measure(dist: int -> real, nns: seq<int>) returns (pairs: seq<Ranked>)
    requires forall x :: x in nns ==> x >= 0
    ensures Ascending(IdsOf(pairs)) && pairs == Pairs(dist, IdsOf(pairs)) && forall x :: x in IdsOf(pairs) <==> x in nns
  {
    var sorted := SortIds(nns);
    ghost var gathered: seq<int> := [];
    pairs := [];
    var last := -1;
    var i := 0;
    while i < |sorted|
      invariant 0 <= i <= |sorted| && last == (if i == 0 then -1 else sorted[i - 1])
      invariant Distinguished(sorted, i, gathered) && pairs == Pairs(dist, gathered)
    {
      var j := sorted[i];
      DistinguishedNext(sorted, i, gathered);
      if j != last {
        last := j;
        pairs := pairs + [Ranked(dist(j), j)];
        gathered := gathered + [j];
      }
      i := i + 1;
    }
    assert IdsOf(pairs) == gathered;
  }

  /** The distinct values among the first i. */
  ghost predicate Distinguished(sorted: seq<int>, i: nat, gathered: seq<int>) {
    && i <= |sorted| && Ascending(gathered) && (forall x :: x in gathered <==> x in sorted[..i])
    && (if i == 0 then gathered == [] else gathered != [] && gathered[|gathered| - 1] == sorted[i - 1])
  }

  lemma {:induction false} DistinguishedNext(sorted: seq<int>, i: nat, gathered: seq<int>)
    requires Ordered(sorted) && i < |sorted| && Distinguished(sorted, i, gathered) && forall x :: x in sorted ==> x >= 0
    ensures sorted[i] >= 0
    ensures Distinguished(sorted, i + 1,
                          if i > 0 && sorted[i] == sorted[i - 1] then gathered else gathered + [sorted[i]])
  {
    assert sorted[..i + 1] == sorted[..i] + [sorted[i]];
    assert sorted[i] in sorted;
    if i > 0 {
      assert sorted[i - 1] in sorted[..i];
    }
  }

  /** The n least of these pairs, and how many pairs there are. */
  method Report(dist: int -> real, pairs: seq<Ranked>, ghost gathered: seq<int>, n: nat) returns (result: seq<int>,
                distances: seq<real>)
    requires pairs == Pairs(dist, gathered)
    ensures result == Scan(dist, gathered, n) + [|gathered|]
    ensures |distances| == |result| - 1 && forall i :: 0 <= i < |distances| ==> distances[i] == dist(result[i])
  {
    var sorted := Sort(pairs, RankedLess);
    RankedOrder();
    SortCorrect(pairs, RankedLess);
    var p := if n < |pairs| then n else |pairs|;
    result, distances := Take(dist, sorted, p, gathered);
    result := result + [|pairs|];
  }

  method Take(dist: int -> real, sorted: seq<Ranked>, p: nat, ghost gathered: seq<int>) returns (result: seq<int>,
              distances: seq<real>)
    requires p <= |sorted| && forall x :: x in sorted ==> x in Pairs(dist, gathered)
    ensures result == IdsOf(sorted[..p]) && |distances| == p
    ensures forall i :: 0 <= i < p ==> distances[i] == dist(result[i])
  {
    result, distances := [], [];
    var i := 0;
    while i < p
      invariant 0 <= i <= p && |result| == |distances| == i && result == IdsOf(sorted[..i])
      invariant forall j :: 0 <= j < i ==> distances[j] == dist(result[j])
    {
      FromPairs(dist, gathered, sorted, i);
      assert sorted[..i + 1][..i] == sorted[..i];
      result, distances := result + [sorted[i].id], distances + [sorted[i].dist];
      i := i + 1;
    }
  }

  lemma {:induction false} FromPairs(dist: int -> real, ids: seq<int>, sorted: seq<Ranked>, i: nat)
    requires i < |sorted| && forall x :: x in sorted ==> x in Pairs(dist, ids)
    ensures sorted[i].dist == dist(sorted[i].id)
  {
    assert sorted[i] in Pairs(dist, ids);
  }

  lemma {:induction false} GatheredAll(nodes: seq<Node>, n: int, k: nat, roots: seq<int>, nns: seq<int>, budget: nat)
    requires forall j :: 0 <= j < |roots| ==> Tree(nodes, n, k, roots[j])
    requires multiset(nns) <= Forest(nodes, n, k, roots)
    requires |nns| >= budget || multiset(nns) == Forest(nodes, n, k, roots)
    ensures forall x :: x in nns ==> x in Forest(nodes, n, k, roots)
    ensures |Forest(nodes, n, k, roots)| <= budget ==> forall x :: x in Forest(nodes, n, k, roots) ==> x in nns
  {
    forall x | x in nns
      ensures x in Forest(nodes, n, k, roots)
    {
      assert x in multiset(nns);
    }
    var all := Forest(nodes, n, k, roots);
    assert all == multiset(nns) + (all - multiset(nns));
    if |all| <= budget {
      assert |all - multiset(nns)| == 0;
      forall x | x in all
        ensures x in nns
      {
        assert x in multiset(nns);
      }
    }
  }

  /** The distance to the nearest hyperplane crossed so far; infinite at a root. */
  datatype Priority = Infinity | Finite(d: real)

  function Least(p: Priority, d: real): (r: Priority)
    ensures r.Finite? && r.d <= d && (p.Finite? ==> r.d <= p.d) && (r == p || r.d == d)
  {
    if p.Finite? && p.d <= d then p else Finite(d)
  }

  /** A subtree in the queue. */
  datatype Entry = Entry(priority: Priority, node: int)

  predicate PriorityLess(a: Priority, b: Priority) {
    a.Finite? && (b.Finite? ==> a.d < b.d)
  }

  predicate EntryLess(a: Entry, b: Entry) {
    PriorityLess(a.priority, b.priority) || (a.priority == b.priority && a.node < b.node)
  }

  /** Entry m is taken out of the queue. */
  ghost predicate TakenOut(q: seq<Entry>, m: int, top: Entry, rest: seq<Entry>) {
    0 <= m < |q| && top == q[m] && rest == q[..m] + q[m + 1..]
  }

  /** a comes no later than e: its priority is greater, or the same and its node is not the lesser one. */
  ghost predicate First(a: Entry, e: Entry) {
    match (a.priority, e.priority)
    case (Finite(x), Finite(y)) => x > y || (x == y && a.node >= e.node)
    case (Infinity, Infinity) => a.node >= e.node
    case (Infinity, Finite(_)) => true
    case (Finite(_), Infinity) => false
  }

  /** One step of the search at a greatest entry m: the margin sends its sign to child 1, the opposite to child 0. */
  ghost predicate Stepped(nodes: seq<Node>, k: nat, margin: seq<real> -> real, q: seq<Entry>, nns: seq<int>, m: nat,
                          q': seq<Entry>, nns': seq<int>)
  {
    && m < |q| && (forall e :: e in q ==> First(q[m], e)) && 0 <= q[m].node < |nodes|
    && var rest, top, nd := q[..m] + q[m + 1..], q[m], nodes[q[m].node];
       if nd.nDescendants == 1 then q' == rest && nns' == nns + [top.node]
       else if nd.nDescendants <= k then
         0 <= nd.nDescendants <= |nd.children| && q' == rest && nns' == nns + nd.children[..nd.nDescendants]
       else
         && |nd.children| == 2 && nns' == nns
         && q' == rest + [Entry(Least(top.priority, margin(nodes[top.node].v)), nd.children[1])]
                       + [Entry(Least(top.priority, -margin(nodes[top.node].v)), nd.children[0])]
  }

  /** The queue and the items gathered so far. */
  datatype State = State(queue: seq<Entry>, items: seq<int>)

  /** State b is one step behind state a. */
  ghost predicate Follows(nodes: seq<Node>, k: nat, margin: seq<real> -> real, a: State, b: State) {
    exists m :: 0 <= m < |a.queue| && Stepped(nodes, k, margin, a.queue, a.items, m, b.queue, b.items)
  }

  /**
   A search, state by state: from all roots at infinity, each step at the first entry of the queue, and no
   step once there are searchK items.
   */
  ghost predicate BestFirst(nodes: seq<Node>, k: nat, margin: seq<real> -> real, roots: seq<int>, searchK: nat,
                            run: seq<State>)
  {
    && run != [] && run[0].items == [] && |run[0].queue| == |roots|
    && (forall i :: 0 <= i < |roots| ==> run[0].queue[i] == Entry(Infinity, roots[i]))
    && forall t :: 0 <= t < |run| - 1 ==> |run[t].items| < searchK && Follows(nodes, k, margin, run[t], run[t + 1])
  }

  lemma StepIs(nodes: seq<Node>, k: nat, margin: seq<real> -> real, q: seq<Entry>, nns: seq<int>, m: nat,
               q': seq<Entry>,
               nns': seq<int>)
    requires m < |q| && Stepped(nodes, k, margin, q, nns, m, q', nns')
    ensures Follows(nodes, k, margin, State(q, nns), State(q', nns'))
  {
  }

  /** The first i roots are queued. */
  ghost predicate RootsQueued(nodes: seq<Node>, n: int, k: nat, roots: seq<int>, q: seq<Entry>, i: nat)
    requires forall j :: 0 <= j < |roots| ==> Tree(nodes, n, k, roots[j])
  {
    && i == |q| <= |roots| && (forall j :: 0 <= j < i ==> q[j] == Entry(Infinity, roots[j]))
    && Trees(nodes, n, k, q) && Pending(nodes, n, k, q) == Forest(nodes, n, k, roots[..i])
  }

  lemma NoRoots(nodes: seq<Node>, n: int, k: nat, roots: seq<int>)
    requires forall j :: 0 <= j < |roots| ==> Tree(nodes, n, k, roots[j])
    ensures RootsQueued(nodes, n, k, roots, [], 0)
  {
  }

  lemma {:induction false} RootQueued(nodes: seq<Node>, n: int, k: nat, roots: seq<int>, q: seq<Entry>, i: nat)
    requires forall j :: 0 <= j < |roots| ==> Tree(nodes, n, k, roots[j])
    requires RootsQueued(nodes, n, k, roots, q, i) && i < |roots|
    ensures RootsQueued(nodes, n, k, roots, q + [Entry(Infinity, roots[i])], i + 1)
  {
    assert roots[..i + 1][..i] == roots[..i];
    PendingPush(nodes, n, k, q, Entry(Infinity, roots[i]));
  }

  lemma AllQueued(nodes: seq<Node>, n: int, k: nat, roots: seq<int>, q: seq<Entry>)
    requires forall j :: 0 <= j < |roots| ==> Tree(nodes, n, k, roots[j])
    requires RootsQueued(nodes, n, k, roots, q, |roots|)
    ensures |q| == |roots| && forall j :: 0 <= j < |roots| ==> q[j] == Entry(Infinity, roots[j])
    ensures Trees(nodes, n, k, q) && Pending(nodes, n, k, q) == Forest(nodes, n, k, roots)
  {
    assert roots[..|roots|] == roots;
  }

  lemma NonePending(nodes: seq<Node>, n: int, k: nat, q: seq<Entry>)
    requires Trees(nodes, n, k, q)
    ensures q == [] ==> Pending(nodes, n, k, q) == multiset{}
  {
  }

  lemma SearchStarts(nodes: seq<Node>, k: nat, margin: seq<real> -> real, roots: seq<int>, searchK: nat, q: seq<Entry>)
    requires |q| == |roots| && forall i :: 0 <= i < |roots| ==> q[i] == Entry(Infinity, roots[i])
    ensures BestFirst(nodes, k, margin, roots, searchK, [State(q, [])])
  {
  }

  lemma {:induction false} BestFirstNext(nodes: seq<Node>, k: nat, margin: seq<real> -> real, roots: seq<int>,
                                         searchK: nat,
                                         run: seq<State>, b: State)
    requires BestFirst(nodes, k, margin, roots, searchK, run) && |run[|run| - 1].items| < searchK
    requires Follows(nodes, k, margin, run[|run| - 1], b)
    ensures BestFirst(nodes, k, margin, roots, searchK, run + [b])
  {
    hide Follows;
  }

  /** A way down from a root: the signed margin of every hyperplane crossed. */
  ghost predicate Way(nodes: seq<Node>, margin: seq<real> -> real, roots: seq<int>, path: seq<int>, signed: seq<real>) {
    && |path| == |signed| + 1 && path[0] in roots
    && forall i :: 0 <= i < |signed| ==>
      && 0 <= path[i] < |nodes| && |nodes[path[i]].children| == 2
      && ((path[i + 1] == nodes[path[i]].children[1] && signed[i] == margin(nodes[path[i]].v))
          || (path[i + 1] == nodes[path[i]].children[0] && signed[i] == -margin(nodes[path[i]].v)))
  }

  /** An entry at the end of a way down, its priority the least signed margin on it. */
  ghost predicate OnItsWay(nodes: seq<Node>, margin: seq<real> -> real, roots: seq<int>, e: Entry) {
    exists path, signed :: |path| == |signed| + 1 && Way(nodes, margin, roots, path, signed)
      && path[|signed|] == e.node && LeastOf(e.priority, signed)
  }

  ghost predicate LeastOf(p: Priority, signed: seq<real>) {
    match p
    case Infinity => signed == []
    case Finite(d) => d in signed && forall i :: 0 <= i < |signed| ==> d <= signed[i]
  }

  lemma {:induction false} LeastOfNext(p: Priority, signed: seq<real>, d: real)
    requires LeastOf(p, signed)
    ensures LeastOf(Least(p, d), signed + [d])
  {
    assert (signed + [d])[|signed|] == d && forall i :: 0 <= i < |signed| ==> (signed + [d])[i] == signed[i];
  }

  lemma {:induction false} WayNext(nodes: seq<Node>, margin: seq<real> -> real, roots: seq<int>, path: seq<int>,
                                   signed: seq<real>, d: real, child: int)
    requires Way(nodes, margin, roots, path, signed)
    requires var top := path[|signed|];
      && 0 <= top < |nodes| && |nodes[top].children| == 2
      && ((child == nodes[top].children[1] && d == margin(nodes[top].v))
          || (child == nodes[top].children[0] && d == -margin(nodes[top].v)))
    ensures Way(nodes, margin, roots, path + [child], signed + [d])
  {
  }

  /** The priority of an entry, at any time of any search, is the least signed margin on the way from its root. */
  lemma {:induction false} PriorityMeans(nodes: seq<Node>, k: nat, margin: seq<real> -> real, roots: seq<int>,
                                         searchK: nat,
                                         run: seq<State>, t: nat, e: Entry)
    requires BestFirst(nodes, k, margin, roots, searchK, run) && t < |run| && e in run[t].queue
    ensures OnItsWay(nodes, margin, roots, e)
    decreases t
  {
    if t == 0 {
      assert Way(nodes, margin, roots, [e.node], []);
    } else {
      hide OnItsWay, Stepped;
      var a, b := run[t - 1], run[t];
      assert Follows(nodes, k, margin, a, b);
      var m :| 0 <= m < |a.queue| && Stepped(nodes, k, margin, a.queue, a.items, m, b.queue, b.items);
      SteppedEntries(nodes, k, margin, a.queue, a.items, m, b.queue, b.items, e);
      if e in a.queue {
        PriorityMeans(nodes, k, margin, roots, searchK, run, t - 1, e);
      } else {
        PriorityMeans(nodes, k, margin, roots, searchK, run, t - 1, a.queue[m]);
        ChildOnItsWay(nodes, margin, roots, a.queue[m], e);
      }
    }
  }

  /** An entry that a step has added is a child of the node taken. */
  lemma {:induction false} SteppedEntries(nodes: seq<Node>, k: nat, margin: seq<real> -> real, q: seq<Entry>,
                                          nns: seq<int>, m: nat, q': seq<Entry>, nns': seq<int>, e: Entry)
    requires Stepped(nodes, k, margin, q, nns, m, q', nns') && m < |q| && e in q'
    ensures e in q || (0 <= q[m].node < |nodes| && IsChild(nodes, margin, q[m], e))
  {
  }

  /** e is a child of top, at the lesser of the priority of top and the signed margin. */
  ghost predicate IsChild(nodes: seq<Node>, margin: seq<real> -> real, top: Entry, e: Entry)
    requires 0 <= top.node < |nodes|
  {
    && |nodes[top.node].children| == 2
    && (e == Entry(Least(top.priority, margin(nodes[top.node].v)), nodes[top.node].children[1])
        || e == Entry(Least(top.priority, -margin(nodes[top.node].v)), nodes[top.node].children[0]))
  }

  lemma {:induction false} ChildOnItsWay(nodes: seq<Node>, margin: seq<real> -> real, roots: seq<int>, top: Entry,
                                         e: Entry)
    requires OnItsWay(nodes, margin, roots, top) && 0 <= top.node < |nodes| && IsChild(nodes, margin, top, e)
    ensures OnItsWay(nodes, margin, roots, e)
  {
    hide Way, LeastOf;
    var path, signed :| |path| == |signed| + 1 && Way(nodes, margin, roots, path, signed)
      && path[|signed|] == top.node && LeastOf(top.priority, signed);
    var d := if e == Entry(Least(top.priority, margin(nodes[top.node].v)), nodes[top.node].children[1])
        then margin(nodes[top.node].v)
             else -margin(nodes[top.node].v);
    LeastOfNext(top.priority, signed, d);
    WayNext(nodes, margin, roots, path, signed, d, e.node);
    assert (path + [e.node])[|signed + [d]|] == e.node;
  }

  ghost predicate Trees(nodes: seq<Node>, n: int, k: nat, q: seq<Entry>) {
    forall i :: 0 <= i < |q| ==> Tree(nodes, n, k, q[i].node)
  }

  /** The items below the queue. */
  ghost function Pending(nodes: seq<Node>, n: int, k: nat, q: seq<Entry>): multiset<int>
    requires Trees(nodes, n, k, q)
  {
    if q == [] then multiset{} else Pending(nodes, n, k, q[..|q| - 1]) + Items(nodes, n, k, q[|q| - 1].node)
  }

  /** The nodes below the queue. */
  ghost function Sizes(nodes: seq<Node>, n: int, k: nat, q: seq<Entry>): nat
    requires Trees(nodes, n, k, q)
  {
    if q == [] then 0 else Sizes(nodes, n, k, q[..|q| - 1]) + Size(nodes, n, k, q[|q| - 1].node)
  }

  /** The items of all trees. */
  ghost function Forest(nodes: seq<Node>, n: int, k: nat, roots: seq<int>): multiset<int>
    requires forall j :: 0 <= j < |roots| ==> Tree(nodes, n, k, roots[j])
  {
    if roots == [] then multiset{}
    else Forest(nodes, n, k, roots[..|roots| - 1]) + Items(nodes, n, k, roots[|roots| - 1])
  }

  lemma {:induction false} PendingPush(nodes: seq<Node>, n: int, k: nat, q: seq<Entry>, e: Entry)
    requires Trees(nodes, n, k, q) && Tree(nodes, n, k, e.node)
    ensures Trees(nodes, n, k, q + [e])
    ensures Pending(nodes, n, k, q + [e]) == Pending(nodes, n, k, q) + Items(nodes, n, k, e.node)
    ensures Sizes(nodes, n, k, q + [e]) == Sizes(nodes, n, k, q) + Size(nodes, n, k, e.node)
  {
    assert (q + [e])[..|q|] == q;
  }

  lemma {:induction false} PendingConcat(nodes: seq<Node>, n: int, k: nat, a: seq<Entry>, b: seq<Entry>)
    requires Trees(nodes, n, k, a) && Trees(nodes, n, k, b)
    ensures Trees(nodes, n, k, a + b)
    ensures Pending(nodes, n, k, a + b) == Pending(nodes, n, k, a) + Pending(nodes, n, k, b)
    ensures Sizes(nodes, n, k, a + b) == Sizes(nodes, n, k, a) + Sizes(nodes, n, k, b)
    decreases |b|
  {
    if b == [] {
      assert a + b == a;
    } else {
      var front, last := b[..|b| - 1], b[|b| - 1];
      assert b == front + [last];
      PendingConcat(nodes, n, k, a, front);
      PushConcat(nodes, n, k, a, front, last);
    }
  }

  lemma {:induction false} PushConcat(nodes: seq<Node>, n: int, k: nat, a: seq<Entry>, front: seq<Entry>, last: Entry)
    requires Trees(nodes, n, k, a) && Trees(nodes, n, k, front) && Tree(nodes, n, k, last.node)
    requires Trees(nodes, n, k, a + front)
    requires Pending(nodes, n, k, a + front) == Pending(nodes, n, k, a) + Pending(nodes, n, k, front)
    requires Sizes(nodes, n, k, a + front) == Sizes(nodes, n, k, a) + Sizes(nodes, n, k, front)
    ensures Trees(nodes, n, k, a + (front + [last])) && Trees(nodes, n, k, front + [last])
    ensures Pending(nodes, n, k, a + (front + [last])) == Pending(nodes, n, k, a) + Pending(nodes, n, k, front + [last])
    ensures Sizes(nodes, n, k, a + (front + [last])) == Sizes(nodes, n, k, a) + Sizes(nodes, n, k, front + [last])
  {
    PendingPush(nodes, n, k, front, last);
    PendingPush(nodes, n, k, a + front, last);
    SumAssociative(Pending(nodes, n, k, a), Pending(nodes, n, k, front), Items(nodes, n, k, last.node));
    ConcatAssociative(a, front, last);
  }

  lemma SumAssociative(x: multiset<int>, y: multiset<int>, z: multiset<int>)
    ensures (x + y) + z == x + (y + z)
  {
  }

  lemma ConcatAssociative(a: seq<Entry>, b: seq<Entry>, e: Entry)
    ensures a + (b + [e]) == (a + b) + [e]
  {
  }

  lemma {:induction false} PendingRemove(nodes: seq<Node>, n: int, k: nat, a: seq<Entry>, e: Entry, b: seq<Entry>)
    requires Trees(nodes, n, k, a) && Tree(nodes, n, k, e.node) && Trees(nodes, n, k, b)
    ensures Trees(nodes, n, k, a + [e] + b) && Trees(nodes, n, k, a + b)
    ensures Pending(nodes, n, k, a + [e] + b) == Pending(nodes, n, k, a + b) + Items(nodes, n, k, e.node)
    ensures Sizes(nodes, n, k, a + [e] + b) == Sizes(nodes, n, k, a + b) + Size(nodes, n, k, e.node)
  {
    PendingPush(nodes, n, k, a, e);
    PendingConcat(nodes, n, k, a + [e], b);
    PendingConcat(nodes, n, k, a, b);
  }

  /** A step neither loses nor doubles an item, and there is less to search after it. */
  lemma {:induction false} SteppedSound(nodes: seq<Node>, n: int, k: nat, margin: seq<real> -> real, q: seq<Entry>,
                                        nns: seq<int>, m: nat, q': seq<Entry>, nns': seq<int>)
    requires k >= 2 && Trees(nodes, n, k, q) && m < |q| && Stepped(nodes, k, margin, q, nns, m, q', nns')
    ensures Trees(nodes, n, k, q') && Sizes(nodes, n, k, q') < Sizes(nodes, n, k, q)
    ensures Pending(nodes, n, k, q') + multiset(nns') == Pending(nodes, n, k, q) + multiset(nns)
  {
    var rest, top, nd := q[..m] + q[m + 1..], q[m], nodes[q[m].node];
    assert q == q[..m] + [q[m]] + q[m + 1..];
    PendingRemove(nodes, n, k, q[..m], q[m], q[m + 1..]);
    if nd.nDescendants != 1 && nd.nDescendants > k {
      var e1 := Entry(Least(top.priority, margin(nodes[top.node].v)), nd.children[1]);
      var e0 := Entry(Least(top.priority, -margin(nodes[top.node].v)), nd.children[0]);
      PendingPush(nodes, n, k, rest, e1);
      PendingPush(nodes, n, k, rest + [e1], e0);
    }
  }

  lemma {:induction false} RunIs(nodes: seq<Node>, m: int, top: int, i: int)
    requires -1 <= i <= top < |nodes| && forall j :: i < j <= top ==> nodes[j].nDescendants == m
    requires i >= 0 ==> nodes[i].nDescendants != m
    ensures Run(nodes, m, top) == top - i
    decreases top
  {
    if top > i {
      RunIs(nodes, m, top - 1, i);
    }
  }

  /** All nodes have room for two children. */
  ghost predicate Sized(nodes: seq<Node>) {
    forall i :: 0 <= i < |nodes| ==> Roomy(nodes[i])
  }

  /** The number of nodes with m descendants at i and directly before it. */
  ghost function Run(nodes: seq<Node>, m: int, i: int): nat
    requires -1 <= i < |nodes|
    decreases i + 1
  {
    if i < 0 || nodes[i].nDescendants != m then 0 else 1 + Run(nodes, m, i - 1)
  }

  /** The n numbers down from this one. */
  function Down(from: int, n: nat): (s: seq<int>)
    ensures |s| == n
  {
    seq(n, j => from - j)
  }

  /** The roots found in a saved index: the last nodes with equally many descendants, without the last original root. */
  ghost function Recovered(saved: seq<Node>): seq<int>
    requires Sized(saved)
  {
    if saved == [] then []
    else
      var run := Run(saved, saved[|saved| - 1].nDescendants, |saved| - 1);
      RunBound(saved, saved[|saved| - 1].nDescendants, |saved| - 1);
      if run > 1 && saved[|saved| - 1].children[0] == saved[|saved| - run].children[0] then Down(|saved| - 1, run - 1)
      else Down(|saved| - 1, run)
  }

  /** One root per tree, each over all items. */
  ghost predicate OneRootPerTree(nodes: seq<Node>, n: nat, k: nat, q: nat, found: seq<int>) {
    |found| == q && forall j :: 0 <= j < |found| ==> RootOk(nodes, n, k, found[j])
  }

  /**
   What is found when the nodes from first on have equally many descendants, and the first child of the
   last is that of the first.
   */
  lemma {:induction false} RecoveredIs(nodes: seq<Node>, m: int, first: nat)
    requires Sized(nodes) && first + 1 < |nodes| && (first > 0 ==> nodes[first - 1].nDescendants != m)
    requires forall j :: first <= j < |nodes| ==> nodes[j].nDescendants == m
    requires nodes[|nodes| - 1].children[0] == nodes[first].children[0]
    ensures Recovered(nodes) == Down(|nodes| - 1, |nodes| - first - 1)
  {
    RunIs(nodes, m, |nodes| - 1, first - 1);
  }

  /** A saved index can be loaded. */
  lemma {:induction false} SavedSized(nodes: seq<Node>, n: int, k: nat, nNodes: int, roots: seq<int>)
    requires Saved(nodes, n, k, nNodes, roots)
    ensures Sized(nodes)
  {
    forall i | 0 <= i < |nodes|
      ensures Roomy(nodes[i])
    {
      if i >= nNodes {
        assert nodes[nNodes + (i - nNodes)] == nodes[roots[i - nNodes]];
      }
    }
  }

  /** The roots of a built index are complete trees, so that it can be searched. */
  lemma {:induction false} BuiltComplete(nodes: seq<Node>, saved: seq<Node>, n: int, k: nat, nNodes: int,
                                         roots: seq<int>)
    requires Saved(saved, n, k, nNodes, roots) && |saved| <= |nodes| && nodes[..|saved|] == saved && roots != []
    ensures Complete(nodes, n, k, roots)
  {
    forall j | 0 <= j < |roots|
      ensures RootOk(nodes, n, k, roots[j])
    {
      assert RootOk(saved, n, k, roots[j]);
      assert saved[..|saved|] == saved;
      PrefixStays([], saved, |saved|, nodes, n, k, roots[j]);
    }
  }

  /** Complete trees can be searched. */
  lemma {:induction false} CompleteForest(nodes: seq<Node>, n: int, k: nat, roots: seq<int>)
    requires Complete(nodes, n, k, roots)
    ensures forall j :: 0 <= j < |roots| ==> Tree(nodes, n, k, roots[j])
    ensures forall x :: x in Forest(nodes, n, k, roots) ==> 0 <= x < n
  {
    ForestOfAll(nodes, n, k, roots);
  }

  /** Two items in two trees, at most three to a node: three roots are found. */
  lemma {:induction false} ThreeRootsForTwoTrees()
    ensures exists nodes: seq<Node> :: Saved(nodes, 2, 3, 4, [2, 3]) && Sized(nodes) && |Recovered(nodes)| == 3
  {
    var item, small := Node(1, [0, 0], []), Node(2, [0, 1], []);
    var nodes := [item, item, small, small, small, small];
    var two := seq(2, i => i);
    assert two == [0, 1];
    forall i | i == 2 || i == 3
      ensures RootOk(nodes, 2, 3, i)
    {
      assert small.children[..2] == two;
    }
    assert SmallRoot(nodes, 2, [2, 3], 0) && SmallRoot(nodes, 2, [2, 3], 1);
    assert Planted(nodes, 2, 3, 4, [2, 3]);
    RecoveredFew(nodes, 2, 3, 4, [2, 3]);
  }

  /** With more items than a node holds, loading finds the copies of the roots, and no other node. */
  lemma {:induction false} RecoveredMany(nodes: seq<Node>, n: nat, k: nat, nNodes: int, roots: seq<int>)
    requires Saved(nodes, n, k, nNodes, roots) && Sized(nodes) && n > k >= 2 && roots != []
    ensures Recovered(nodes) == Down(|nodes| - 1, |roots|) && OneRootPerTree(nodes, n, k, |roots|, Recovered(nodes))
  {
    ManyFound(nodes, n, k, nNodes, roots);
    forall j | 0 <= j < |roots|
      ensures RootOk(nodes, n, k, Recovered(nodes)[j])
    {
      CopyOk(nodes, n, k, nNodes, roots, |roots| - 1 - j);
    }
  }

  lemma {:induction false} ManyFound(nodes: seq<Node>, n: nat, k: nat, nNodes: int, roots: seq<int>)
    requires Saved(nodes, n, k, nNodes, roots) && Sized(nodes) && n > k >= 2 && roots != []
    ensures Recovered(nodes) == Down(|nodes| - 1, |roots|)
  {
    var q := |roots|;
    assert RootOk(nodes, n, k, roots[q - 1]);
    assert nodes[nNodes + (q - 1)] == nodes[roots[q - 1]];
    forall j | nNodes - 2 < j < |nodes|
      ensures nodes[j].nDescendants == n
    {
      if j >= nNodes {
        assert nodes[nNodes + (j - nNodes)] == nodes[roots[j - nNodes]];
        assert RootOk(nodes, n, k, roots[j - nNodes]);
      }
    }
    RecoveredIs(nodes, n, nNodes - 1);
  }

  /** With two to k items, loading finds the roots beside their copies, without the first root. */
  lemma {:induction false} RecoveredFew(nodes: seq<Node>, n: nat, k: nat, nNodes: int, roots: seq<int>)
    requires Saved(nodes, n, k, nNodes, roots) && Sized(nodes) && n <= k && n != 1 && roots != []
    ensures Recovered(nodes) == Down(|nodes| - 1, 2 * |roots| - 1)
    ensures forall j :: 0 <= j < |Recovered(nodes)| ==> RootOk(nodes, n, k, Recovered(nodes)[j])
  {
    FewFound(nodes, n, k, nNodes, roots);
    forall j | 0 <= j < |Recovered(nodes)|
      ensures RootOk(nodes, n, k, Recovered(nodes)[j])
    {
      FewOk(nodes, n, k, nNodes, roots, Recovered(nodes)[j]);
    }
  }

  lemma {:induction false} FewFound(nodes: seq<Node>, n: nat, k: nat, nNodes: int, roots: seq<int>)
    requires Saved(nodes, n, k, nNodes, roots) && Sized(nodes) && n <= k && n != 1 && roots != []
    ensures Recovered(nodes) == Down(|nodes| - 1, 2 * |roots| - 1)
  {
    forall j | n - 1 < j < |nodes|
      ensures nodes[j].nDescendants == n && nodes[j].children[0] == 0
    {
      FewOk(nodes, n, k, nNodes, roots, j);
    }
    RecoveredIs(nodes, n, n);
  }

  /** Every node behind few items is a root or a copy of one. */
  lemma {:induction false} FewOk(nodes: seq<Node>, n: nat, k: nat, nNodes: int, roots: seq<int>, i: int)
    requires Saved(nodes, n, k, nNodes, roots) && n <= k && n != 1 && n <= i < |nodes|
    ensures RootOk(nodes, n, k, i) && |nodes[i].children| >= 2 && nodes[i].children[0] == 0
  {
    if i >= nNodes {
      assert SmallRoot(nodes, n, roots, i - nNodes);
      CopyOk(nodes, n, k, nNodes, roots, i - nNodes);
    } else {
      assert SmallRoot(nodes, n, roots, i - n) && RootOk(nodes, n, k, roots[i - n]);
    }
  }

  /** A copy of a root is a root of the same tree, unless it is an item. */
  lemma {:induction false} CopyOk(nodes: seq<Node>, n: nat, k: nat, nNodes: int, roots: seq<int>, j: nat)
    requires Saved(nodes, n, k, nNodes, roots) && j < |roots| && n != 1
    ensures RootOk(nodes, n, k, nNodes + j)
  {
    assert RootOk(nodes, n, k, roots[j]);
  }

  /**
   Loading finds one root per tree exactly when there are more items than a node holds, or a single tree
   without being a single item.
   */
  lemma {:induction false} RecoveredIff(nodes: seq<Node>, n: nat, k: nat, nNodes: int, roots: seq<int>)
    requires Saved(nodes, n, k, nNodes, roots) && Sized(nodes) && k >= 2 && roots != []
    ensures OneRootPerTree(nodes, n, k, |roots|, Recovered(nodes)) <==> n > k || (n != 1 && |roots| == 1)
  {
    if n > k {
      RecoveredMany(nodes, n, k, nNodes, roots);
    } else if n != 1 {
      RecoveredFew(nodes, n, k, nNodes, roots);
    } else {
      RecoveredSingle(nodes, n, k, nNodes, roots);
    }
  }

  /** With a single item, loading finds copies of the item, which are no items themselves. */
  lemma {:induction false} RecoveredSingle(nodes: seq<Node>, n: nat, k: nat, nNodes: int, roots: seq<int>)
    requires Saved(nodes, n, k, nNodes, roots) && Sized(nodes) && n == 1 && roots != []
    ensures Recovered(nodes) == Down(|roots|, |roots|)
    ensures forall j :: 0 <= j < |roots| ==>
      nodes[Recovered(nodes)[j]] == nodes[0] && !RootOk(nodes, n, k, Recovered(nodes)[j])
  {
    forall j | -1 < j < |nodes|
      ensures nodes[j] == nodes[0]
    {
      if j >= nNodes {
        assert nodes[nNodes + (j - nNodes)] == nodes[roots[j - nNodes]];
      }
    }
    RecoveredIs(nodes, 1, 0);
  }

  lemma {:induction false} RunBound(nodes: seq<Node>, m: int, i: int)
    requires -1 <= i < |nodes|
    ensures Run(nodes, m, i) <= i + 1
    decreases i + 1
  {
    if i >= 0 && nodes[i].nDescendants == m {
      RunBound(nodes, m, i - 1);
    }
  }

  /** The items of an index, each once. */
  ghost function AllItems(n: nat): multiset<int> {
    multiset(seq(n, i => i))
  }

  /** Root j of an index with n items. */
  ghost predicate RootOk(nodes: seq<Node>, n: nat, k: nat, root: int) {
    && Tree(nodes, n, k, root) && Items(nodes, n, k, root) == AllItems(n) && nodes[root].nDescendants == n
  }

  /** The trees of few items are single nodes, one behind the other. */
  ghost predicate SmallRoot(nodes: seq<Node>, n: nat, roots: seq<int>, j: nat)
    requires j < |roots|
  {
    roots[j] == n + j < |nodes| && |nodes[roots[j]].children| >= 2 && nodes[roots[j]].children[0] == 0
  }

  /** Trees over all n items behind the items; the last root is the last node. */
  ghost predicate Planted(nodes: seq<Node>, n: int, k: nat, nNodes: int, roots: seq<int>) {
    && 0 <= n <= nNodes <= |nodes|
    && (forall i :: 0 <= i < n ==> nodes[i].nDescendants == 1 && nodes[i].children == [0, 0])
    && (forall j :: 0 <= j < |roots| ==> roots[j] < nNodes && RootOk(nodes, n, k, roots[j]))
    && (forall i :: 0 <= i < nNodes ==> Roomy(nodes[i]))
    && (n == 1 ==> nNodes == 1)
    && (n != 1 && roots != [] ==> roots[|roots| - 1] == nNodes - 1 >= n)
    && (n > k && roots != [] ==> nNodes - 2 >= n && nodes[nNodes - 2].nDescendants < n)
    && (n <= k && n != 1 ==> nNodes == n + |roots| && forall j :: 0 <= j < |roots| ==> SmallRoot(nodes, n, roots, j))
  }

  /** A saved index: trees, then a copy of every root. */
  ghost predicate Saved(nodes: seq<Node>, n: int, k: nat, nNodes: int, roots: seq<int>) {
    && |nodes| == nNodes + |roots| && Planted(nodes, n, k, nNodes, roots)
    && forall j :: 0 <= j < |roots| ==> nodes[nNodes + j] == nodes[roots[j]]
  }

  lemma {:induction false} SmallRootNext(was: seq<Node>, m: int, nodes: seq<Node>, n: nat, k: nat, nNodes: int,
                                         roots: seq<int>, root: int)
    requires 0 <= m <= |was| && m == n + |roots| && n <= k && n != 1
    requires Made(was[..m], nodes, n, k, nNodes, seq(n, i => i), root)
    requires forall j :: 0 <= j < |roots| ==> SmallRoot(was, n, roots, j)
    ensures forall j :: 0 <= j <= |roots| ==> SmallRoot(nodes, n, roots + [root], j)
  {
    forall j | 0 <= j <= |roots|
      ensures SmallRoot(nodes, n, roots + [root], j)
    {
      if j < |roots| {
        assert SmallRoot(was, n, roots, j);
        assert nodes[roots[j]] == nodes[..m][roots[j]] == was[..m][roots[j]];
      }
    }
  }

  lemma {:induction false} PlantedNext(was: seq<Node>, m: int, nodes: seq<Node>, n: int, k: nat, nNodes: int,
                                       roots: seq<int>, root: int)
    requires Planted(was, n, k, m, roots) && k >= 2 && Made(was[..m], nodes, n, k, nNodes, seq(n, i => i), root)
    ensures Planted(nodes, n, k, nNodes, roots + [root]) && (n != 1 ==> nNodes > m)
  {
    RootsStay(was, m, nodes, n, k, roots);
    if n <= k && n != 1 {
      SmallRootNext(was, m, nodes, n, k, nNodes, roots, root);
    }
    forall i | 0 <= i < m
      ensures nodes[i] == was[i]
    {
      assert nodes[i] == nodes[..m][i] == was[..m][i];
    }
  }

  lemma PlantedItems(nodes: seq<Node>, n: int, k: nat, nNodes: int, roots: seq<int>)
    requires Planted(nodes, n, k, nNodes, roots)
    ensures 0 <= n <= nNodes <= |nodes|
  {
  }

  /** One tree more over all items. */
  lemma {:induction false} TreeAdded(was: seq<Node>, m: int, nodes: seq<Node>, n: int, k: nat, nNodes: int,
                                     roots: seq<int>, indices: seq<int>, root: int, splits: Splits)
    requires Planted(was, n, k, m, roots) && k >= 2 && n >= 0 && indices == Numbers(n)
    requires 0 <= m <= |was| && Made(was[..m], nodes, n, k, nNodes, indices, root)
    requires SplitBy(nodes, n, k, splits, root)
    ensures Planted(nodes, n, k, nNodes, roots + [root]) && nNodes >= m && (nNodes > m <==> n != 1)
    ensures AllSplit(was, n, k, splits, roots) ==> AllSplit(nodes, n, k, splits, roots + [root])
  {
    PlantedNext(was, m, nodes, n, k, nNodes, roots, root);
    RootsBelow(was, n, k, m, roots);
    hide Planted, AllSplit, SplitBy;
    AllSplitNext(was, m, nodes, n, k, splits, roots, root);
  }

  lemma NoneSplit(nodes: seq<Node>, n: int, k: nat, splits: Splits)
    ensures AllSplit(nodes, n, k, splits, [])
  {
  }

  /** A further tree joins those split before. */
  lemma {:induction false} AllSplitNext(was: seq<Node>, m: int, nodes: seq<Node>, n: int, k: nat, splits: Splits,
                                        roots: seq<int>, root: int)
    requires 0 <= m <= |was| && m <= |nodes| && nodes[..m] == was[..m] && forall j :: 0 <= j < |roots| ==> roots[j] < m
    requires Tree(nodes, n, k, root) && SplitBy(nodes, n, k, splits, root)
    ensures AllSplit(was, n, k, splits, roots) ==> AllSplit(nodes, n, k, splits, roots + [root])
  {
    if AllSplit(was, n, k, splits, roots) {
      AllSplitStays(was, nodes, m, n, k, splits, roots);
    }
  }

  lemma RootsBelow(nodes: seq<Node>, n: int, k: nat, nNodes: int, roots: seq<int>)
    requires Planted(nodes, n, k, nNodes, roots)
    ensures 0 <= nNodes <= |nodes| && forall j :: 0 <= j < |roots| ==> roots[j] < nNodes
  {
  }

  lemma {:induction false} NothingPlanted(nodes: seq<Node>, n: int, k: nat)
    requires 0 <= n <= |nodes| && forall i :: 0 <= i < n ==> nodes[i].nDescendants == 1 && nodes[i].children == [0, 0]
    ensures Planted(nodes, n, k, n, [])
  {
  }

  lemma {:induction false} RootsStay(was: seq<Node>, m: int, nodes: seq<Node>, n: int, k: nat, roots: seq<int>)
    requires Planted(was, n, k, m, roots) && m <= |nodes| && nodes[..m] == was[..m]
    ensures forall j :: 0 <= j < |roots| ==> RootOk(nodes, n, k, roots[j])
  {
    forall j | 0 <= j < |roots|
      ensures RootOk(nodes, n, k, roots[j])
    {
      assert RootOk(was, n, k, roots[j]);
      PrefixStays([], was, m, nodes, n, k, roots[j]);
    }
  }

  /** The first nodes stay, and copies of the roots follow them. */
  ghost predicate CopiedRoots(was: seq<Node>, nodes: seq<Node>, nNodes: int, roots: seq<int>) {
    && 0 <= nNodes <= |was| && nNodes + |roots| <= |nodes| && nodes[..nNodes] == was[..nNodes]
    && forall j :: 0 <= j < |roots| ==> 0 <= roots[j] < |was| && nodes[nNodes + j] == was[roots[j]]
  }

  lemma {:induction false} SavedCopies(was: seq<Node>, nodes: seq<Node>, n: int, k: nat, nNodes: int, roots: seq<int>)
    returns (saved: seq<Node>)
    requires Planted(was, n, k, nNodes, roots) && nNodes + |roots| <= |nodes|
    requires CopiedRoots(was, nodes, nNodes, roots)
    ensures saved == nodes[..nNodes + |roots|] && Saved(saved, n, k, nNodes, roots)
  {
    saved := nodes[..nNodes + |roots|];
    assert saved[..nNodes] == nodes[..nNodes] == was[..nNodes];
    PlantedStays(was, saved, n, k, nNodes, roots);
    forall j | 0 <= j < |roots|
      ensures saved[nNodes + j] == saved[roots[j]]
    {
      assert saved[roots[j]] == saved[..nNodes][roots[j]] == was[..nNodes][roots[j]];
    }
  }

  lemma {:induction false} PlantedStays(was: seq<Node>, nodes: seq<Node>, n: int, k: nat, nNodes: int, roots: seq<int>)
    requires Planted(was, n, k, nNodes, roots) && nNodes <= |nodes| && nodes[..nNodes] == was[..nNodes]
    ensures Planted(nodes, n, k, nNodes, roots)
  {
    forall j | 0 <= j < nNodes
      ensures nodes[j] == was[j]
    {
      assert nodes[j] == nodes[..nNodes][j] == was[..nNodes][j];
    }
    forall j | 0 <= j < |roots|
      ensures RootOk(nodes, n, k, roots[j])
    {
      assert RootOk(was, n, k, roots[j]);
      PrefixStays([], was, nNodes, nodes, n, k, roots[j]);
    }
    if n <= k && n != 1 {
      forall j | 0 <= j < |roots|
        ensures SmallRoot(nodes, n, roots, j)
      {
        assert SmallRoot(was, n, roots, j);
      }
    }
  }

  lemma {:induction false} SubItems(c0: seq<int>, c1: seq<int>, indices: seq<int>, n: int)
    requires multiset(c0) + multiset(c1) == multiset(indices) && forall j :: j in indices ==> 0 <= j < n
    ensures forall j :: j in c0 || j in c1 ==> 0 <= j < n
  {
    forall j | j in c0 || j in c1
      ensures 0 <= j < n
    {
      assert j in multiset(c0) || j in multiset(c1);
      assert j in multiset(c0) + multiset(c1);
      assert j in multiset(indices);
      assert j in indices;
    }
  }

  /** A node has room for two children. */
  ghost predicate Roomy(nd: Node) {
    |nd.children| >= 2 && nd.nDescendants >= 0
  }

  /** The nodes from was on were appended for a tree over these items. */
  ghost predicate Made(was: seq<Node>, nodes: seq<Node>, n: int, k: nat, nNodes: int, indices: seq<int>, item: int) {
    && |was| <= nNodes <= |nodes| && nodes[..|was|] == was
    && 0 <= item < nNodes && Tree(nodes, n, k, item) && Items(nodes, n, k, item) == multiset(indices)
    && nodes[item].nDescendants == |indices|
    && (if |indices| == 1 then item == indices[0] && nNodes == |was| else item == nNodes - 1 >= |was|)
    && (|indices| <= k && |indices| != 1 ==> nNodes == |was| + 1)
    && (|indices| <= k && |indices| != 1 ==> nodes[item].children == if |indices| == 0 then [0, 0] else indices)
    && (|indices| > k && |indices| > 1 ==> nNodes - 2 >= |was|)
    && (forall j :: |was| <= j < nNodes && j != item ==> nodes[j].nDescendants < |indices|)
    && (forall j :: |was| <= j < nNodes ==> Roomy(nodes[j]))
  }

  ghost predicate MadeBoth(was: seq<Node>, nodes: seq<Node>, n: int, k: nat, nNodes: int, c0: seq<int>, c1: seq<int>,
                           i0: int, i1: int) {
    && |was| <= nNodes <= |nodes| && nodes[..|was|] == was && 0 <= i0 < nNodes && 0 <= i1 < nNodes
    && Tree(nodes, n, k, i0) && Items(nodes, n, k, i0) == multiset(c0)
    && Tree(nodes, n, k, i1) && Items(nodes, n, k, i1) == multiset(c1)
    && (|c0| > 1 || |c1| > 1 ==> nNodes > |was|)
    && (forall j :: |was| <= j < nNodes ==> nodes[j].nDescendants < |c0| + |c1| && Roomy(nodes[j]))
  }

  lemma {:induction false} LeafMade(nodes: seq<Node>, n: int, k: nat, nNodes: int, indices: seq<int>)
    requires |indices| == 1 && 0 <= indices[0] < n <= nNodes <= |nodes| && nodes[indices[0]].nDescendants == 1
    ensures Made(nodes[..nNodes], nodes, n, k, nNodes, indices, indices[0])
  {
    assert indices == [indices[0]];
  }

  lemma {:induction false} SmallMade(was: seq<Node>, nodes: seq<Node>, n: int, k: nat, indices: seq<int>)
    requires |indices| != 1 && |indices| <= k && |was| < |nodes| && nodes[..|was|] == was
    requires nodes[|was|] == Node(|indices|, if |indices| == 0 then [0, 0] else indices, [])
    ensures Made(was, nodes, n, k, |was| + 1, indices, |was|)
  {
    assert nodes[|was|].children[..|indices|] == indices;
  }

  /** What was built stays when nodes are appended. */
  lemma {:induction false} PrefixStays(was: seq<Node>, full: seq<Node>, m: int, nodes: seq<Node>, n: int, k: nat,
                                       i: int)
    requires |was| <= m <= |full| && full[..|was|] == was && m <= |nodes| && nodes[..m] == full[..m]
    requires i < m && Tree(full, n, k, i)
    ensures nodes[..|was|] == was && forall j :: 0 <= j < m ==> nodes[j] == full[j]
    ensures Tree(nodes, n, k, i) && Items(nodes, n, k, i) == Items(full, n, k, i)
  {
    assert nodes[..|was|] == nodes[..m][..|was|] == full[..m][..|was|] == full[..|was|];
    assert nodes[..i + 1] == nodes[..m][..i + 1] == full[..m][..i + 1] == full[..i + 1];
    forall j | 0 <= j < m
      ensures nodes[j] == full[j]
    {
      assert nodes[j] == nodes[..m][j] == full[..m][j];
    }
    TreeStays(full, nodes, n, k, i);
  }

  lemma {:induction false} BothMade(was: seq<Node>, full: seq<Node>, m: int, nodes: seq<Node>, n: int, k: nat,
                                    nNodes: int, c0: seq<int>,
                                    c1: seq<int>, i0: int, i1: int)
    requires 0 <= m <= |full| && Made(was, full, n, k, m, c0, i0)
    requires Made(full[..m], nodes, n, k, nNodes, c1, i1) && |c0| > 0 && |c1| > 0
    ensures MadeBoth(was, nodes, n, k, nNodes, c0, c1, i0, i1) && MadeBoth(was, nodes, n, k, nNodes, c1, c0, i1, i0)
  {
    PrefixStays(was, full, m, nodes, n, k, i0);
  }

  lemma {:induction false} PrefixSplit(full: seq<Node>, m: int, nodes: seq<Node>, n: int, k: nat, splits: Splits,
                                       i: int)
    requires 0 <= m <= |full| && m <= |nodes| && nodes[..m] == full[..m]
    requires i < m && Tree(full, n, k, i) && SplitBy(full, n, k, splits, i)
    ensures Tree(nodes, n, k, i) && SplitBy(nodes, n, k, splits, i)
  {
    assert nodes[..i + 1] == nodes[..m][..i + 1] == full[..m][..i + 1] == full[..i + 1];
    SplitStays(full, nodes, n, k, splits, i);
  }

  /** The new inner node is split as the choice of this call says. */
  lemma {:induction false} InnerSplit(full: seq<Node>, m: int, nodes: seq<Node>, n: int, k: nat, splits: Splits,
                                      c: nat, c0: seq<int>, c1: seq<int>, indices: seq<int>, i0: int, i1: int)
    requires 0 <= m <= |full| && m < |nodes| && nodes[..m] == full[..m] && 0 <= i0 < m && 0 <= i1 < m
    requires Tree(full, n, k, i0) && Tree(full, n, k, i1) && Tree(nodes, n, k, m)
    requires Items(full, n, k, i0) == multiset(c0) && Items(full, n, k, i1) == multiset(c1)
    requires SplitBy(full, n, k, splits, i0) && SplitBy(full, n, k, splits, i1)
    requires multiset(c0) + multiset(c1) == multiset(indices)
    requires nodes[m] == Node(|indices|, [i0, i1], splits(c, indices).0)
    requires SplitInto(splits, c, indices, splits(c, indices).0, c0, c1)
    ensures SplitBy(nodes, n, k, splits, m)
  {
    hide OnSide;
    PrefixSplit(full, m, nodes, n, k, splits, i0);
    PrefixSplit(full, m, nodes, n, k, splits, i1);
    PrefixStays([], full, m, nodes, n, k, i0);
    PrefixStays([], full, m, nodes, n, k, i1);
    assert SplitAs(nodes[m], splits(c, indices), indices, multiset(c0), multiset(c1));
  }

  lemma MadeBothUsed(was: seq<Node>, nodes: seq<Node>, n: int, k: nat, nNodes: int, c0: seq<int>, c1: seq<int>,
                     i0: int, i1: int)
    requires MadeBoth(was, nodes, n, k, nNodes, c0, c1, i0, i1)
    ensures 0 <= nNodes <= |nodes| && 0 <= i0 < nNodes && 0 <= i1 < nNodes
    ensures Tree(nodes, n, k, i0) && Items(nodes, n, k, i0) == multiset(c0)
    ensures Tree(nodes, n, k, i1) && Items(nodes, n, k, i1) == multiset(c1)
  {
  }

  /** A choice of the random splits, its hyperplane, and the items of either side. */
  ghost predicate SplitInto(splits: Splits, c: nat, indices: seq<int>, plane: seq<real>, c0: seq<int>, c1: seq<int>) {
    && plane == splits(c, indices).0
    && forall x ::
      && (x in c0 <==> OnSide(indices, splits(c, indices).1, false, x))
      && (x in c1 <==> OnSide(indices, splits(c, indices).1, true, x))
  }

  lemma {:induction false} InnerDone(was: seq<Node>, full: seq<Node>, m: int, nodes: seq<Node>, n: int, k: nat,
                                     c: nat, c0: seq<int>, c1: seq<int>, indices: seq<int>, i0: int, i1: int,
                                     plane: seq<real>, splits: Splits)
    requires 0 <= m <= |full| && MadeBoth(was, full, n, k, m, c0, c1, i0, i1)
    requires |indices| > k >= 2 && multiset(c0) + multiset(c1) == multiset(indices) && |c0| + |c1| == |indices|
    requires m < |nodes| && nodes[..m] == full[..m] && nodes[m] == Node(|indices|, [i0, i1], plane)
    requires SplitInto(splits, c, indices, plane, c0, c1)
    requires Tree(full, n, k, i0) && Tree(full, n, k, i1)
    requires SplitBy(full, n, k, splits, i0) && SplitBy(full, n, k, splits, i1)
    ensures Made(was, nodes, n, k, m + 1, indices, m) && SplitBy(nodes, n, k, splits, m)
  {
    hide SplitBy, OnSide;
    MadeBothUsed(was, full, n, k, m, c0, c1, i0, i1);
    InnerMade(was, full, m, nodes, n, k, c0, c1, indices, i0, i1);
    InnerSplit(full, m, nodes, n, k, splits, c, c0, c1, indices, i0, i1);
  }

  lemma {:induction false} InnerMade(was: seq<Node>, full: seq<Node>, m: int, nodes: seq<Node>, n: int, k: nat,
                                     c0: seq<int>, c1: seq<int>,
                                     indices: seq<int>, i0: int, i1: int)
    requires 0 <= m <= |full| && MadeBoth(was, full, n, k, m, c0, c1, i0, i1)
    requires |indices| > k >= 2 && multiset(c0) + multiset(c1) == multiset(indices) && |c0| + |c1| == |indices|
    requires m < |nodes| && nodes[..m] == full[..m]
    requires nodes[m].nDescendants == |indices| && nodes[m].children == [i0, i1]
    ensures Made(was, nodes, n, k, m + 1, indices, m) && m > |was|
  {
    PrefixStays(was, full, m, nodes, n, k, i0);
    PrefixStays(was, full, m, nodes, n, k, i1);
  }
}
