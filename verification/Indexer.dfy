/**
 The layout of the inverted multi-index: one array of records grouped by cell,
 filled by counting the points of each cell, turning the counts into cell edges
 and placing every point behind the points already written in its cell.
 */
module MultiIndexers {
  import opened DistinctSeqs
  import opened Multitables

  /** A record of the index; Blank is what vector::resize puts there. */
  datatype Record = Blank | Record(pid: int)

  function Records(pids: seq<int>): seq<Record> {
    seq(|pids|, i requires 0 <= i < |pids| => Record(pids[i]))
  }

  /** Ids of the points whose cell has rank g, in id order. */
  function Bucket(ranks: seq<int>, g: int): seq<int> {
    if ranks == [] then []
    else
      var n := |ranks| - 1;
      Bucket(ranks[..n], g) + if ranks[n] == g then [n] else []
  }

  /** The buckets of the first cells, one after the other. */
  function Layout(ranks: seq<int>, cells: nat): seq<int> {
    if cells == 0 then [] else Layout(ranks, cells - 1) + Bucket(ranks, cells - 1)
  }

  /** Where the bucket of cell g starts. */
  function Edge(ranks: seq<int>, g: nat): nat {
    |Layout(ranks, g)|
  }

  lemma {:induction false} EdgeNext(ranks: seq<int>, g: nat)
    requires g > 0
    ensures Edge(ranks, g) == Edge(ranks, g - 1) + |Bucket(ranks, g - 1)|
  {
  }

  lemma {:induction false} BucketMembers(ranks: seq<int>, g: int)
    ensures forall p :: p in Bucket(ranks, g) <==> 0 <= p < |ranks| && ranks[p] == g
    ensures forall i, j :: 0 <= i < j < |Bucket(ranks, g)| ==> Bucket(ranks, g)[i] < Bucket(ranks, g)[j]
  {
    if ranks != [] {
      BucketMembers(ranks[..|ranks| - 1], g);
      var b := Bucket(ranks[..|ranks| - 1], g);
      assert forall i :: 0 <= i < |b| ==> b[i] in b;
    }
  }

  lemma {:induction false} BucketPrefix(ranks: seq<int>, p: nat, g: int)
    requires p <= |ranks|
    ensures Bucket(ranks[..p], g) <= Bucket(ranks, g)
    decreases |ranks|
  {
    if p < |ranks| {
      var n := |ranks| - 1;
      BucketPrefix(ranks[..n], p, g);
      assert ranks[..n][..p] == ranks[..p];
    } else {
      assert ranks[..p] == ranks;
    }
  }

  /** The next point to write lands inside the bucket of its cell. */
  lemma {:induction false} BucketNext(ranks: seq<int>, p: nat)
    requires p < |ranks|
    ensures Bucket(ranks[..p + 1], ranks[p]) == Bucket(ranks[..p], ranks[p]) + [p]
    ensures forall g :: g != ranks[p] ==> Bucket(ranks[..p + 1], g) == Bucket(ranks[..p], g)
    ensures |Bucket(ranks[..p], ranks[p])| < |Bucket(ranks, ranks[p])|
  {
    assert ranks[..p + 1][..p] == ranks[..p];
    BucketPrefix(ranks, p + 1, ranks[p]);
  }

  lemma {:induction false} LayoutPrefix(ranks: seq<int>, g: nat, cells: nat)
    requires g <= cells
    ensures Layout(ranks, g) <= Layout(ranks, cells)
    decreases cells
  {
    if g < cells {
      LayoutPrefix(ranks, g, cells - 1);
    }
  }

  /** The bucket of g occupies [Edge(g), Edge(g + 1)). */
  lemma {:induction false} LayoutSlice(ranks: seq<int>, g: nat, cells: nat)
    requires g < cells
    ensures Edge(ranks, g + 1) == Edge(ranks, g) + |Bucket(ranks, g)| <= Edge(ranks, cells)
    ensures Layout(ranks, cells)[Edge(ranks, g)..Edge(ranks, g + 1)] == Bucket(ranks, g)
  {
    LayoutPrefix(ranks, g + 1, cells);
    assert Layout(ranks, g + 1)[Edge(ranks, g)..] == Bucket(ranks, g);
  }

  lemma {:induction false} BehindDistinct(a: seq<int>, b: seq<int>)
    requires Distinct(a) && (forall i, j :: 0 <= i < j < |b| ==> b[i] < b[j]) && forall x :: x in a ==> x !in b
    ensures Distinct(a + b)
  {
    forall i, j | 0 <= i < j < |a + b|
      ensures (a + b)[i] != (a + b)[j]
    {
      if i < |a| <= j {
        assert (a + b)[i] in a && (a + b)[j] in b;
      }
    }
  }

  lemma {:induction false} LayoutMembers(ranks: seq<int>, cells: nat)
    ensures Distinct(Layout(ranks, cells))
    ensures forall p :: p in Layout(ranks, cells) <==> 0 <= p < |ranks| && 0 <= ranks[p] < cells
  {
    if cells > 0 {
      LayoutMembers(ranks, cells - 1);
      BucketMembers(ranks, cells - 1);
      BehindDistinct(Layout(ranks, cells - 1), Bucket(ranks, cells - 1));
    }
  }

  /** The whole layout is a permutation of the point ids. */
  lemma {:induction false} LayoutIsPermutation(ranks: seq<int>, cells: nat)
    requires forall p :: 0 <= p < |ranks| ==> 0 <= ranks[p] < cells
    ensures |Layout(ranks, cells)| == |ranks|
    ensures multiset(Layout(ranks, cells)) == multiset(seq(|ranks|, i => i))
  {
    LayoutMembers(ranks, cells);
    var ids := seq(|ranks|, i => i);
    forall p | 0 <= p < |ranks|
      ensures p in ids
    {
      assert ids[p] == p;
    }
    DistinctSameElements(Layout(ranks, cells), ids);
  }

  /** A bucket ends before every later one begins. */
  lemma {:induction false} EdgeOrder(ranks: seq<int>, g: nat, h: nat)
    requires g < h
    ensures Edge(ranks, g) + |Bucket(ranks, g)| <= Edge(ranks, h)
  {
    LayoutSlice(ranks, g, h);
  }

  /** Two different slots of the buckets are different slots of the array. */
  lemma {:induction false} SlotsDisjoint(ranks: seq<int>, cells: nat, g: nat, i: nat, h: nat, j: nat)
    requires g < cells && i < |Bucket(ranks, g)|
    requires h < cells && j < |Bucket(ranks, h)|
    requires g != h || i != j
    ensures Edge(ranks, g) + i != Edge(ranks, h) + j
    ensures Edge(ranks, g) + i < Edge(ranks, cells)
  {
    EdgeOrder(ranks, g, cells);
    if g < h {
      EdgeOrder(ranks, g, h);
    } else if h < g {
      EdgeOrder(ranks, h, g);
    }
  }

  /** In m, every cell starts with its points among the first p. */
  ghost predicate Filled(ranks: seq<int>, cells: nat, p: nat, m: seq<Record>)
    requires p <= |ranks|
  {
    && |m| == |ranks|
    && forall g: nat, j: nat :: g < cells && j < |Bucket(ranks[..p], g)| ==> SlotHolds(ranks, p, m, g, j)
  }

  ghost predicate SlotHolds(ranks: seq<int>, p: nat, m: seq<Record>, g: nat, j: nat)
    requires p <= |ranks| && j < |Bucket(ranks[..p], g)|
  {
    Edge(ranks, g) + j < |m| && m[Edge(ranks, g) + j] == Record(Bucket(ranks[..p], g)[j])
  }

  lemma {:induction false} FillNext(ranks: seq<int>, cells: nat, p: nat, m: seq<Record>)
    requires p < |ranks| && 0 <= ranks[p] < cells
    requires |ranks| == Edge(ranks, cells)
    requires Filled(ranks, cells, p, m)
    ensures Edge(ranks, ranks[p]) + |Bucket(ranks[..p], ranks[p])| < |m|
    ensures Filled(ranks, cells, p + 1, m[Edge(ranks, ranks[p]) + |Bucket(ranks[..p], ranks[p])| := Record(p)])
  {
    BucketNext(ranks, p);
    var gp, jp := ranks[p], |Bucket(ranks[..p], ranks[p])|;
    LayoutSlice(ranks, gp, cells);
    hide Layout, Bucket;
    var m' := m[Edge(ranks, gp) + jp := Record(p)];
    forall g: nat, j: nat {:trigger SlotHolds(ranks, p + 1, m', g, j)} | g < cells && j < |Bucket(ranks[..p + 1], g)|
      ensures SlotHolds(ranks, p + 1, m', g, j)
    {
      BucketPrefix(ranks, p + 1, g);
      if g != gp || j != jp {
        SlotsDisjoint(ranks, cells, g, j, gp, jp);
        assert SlotHolds(ranks, p, m, g, j);
      }
    }
  }

  /** Once every point is placed, the array is the layout. */
  lemma {:induction false} FilledIsLayout(ranks: seq<int>, cells: nat, m: seq<Record>)
    requires |ranks| == Edge(ranks, cells) && Filled(ranks, cells, |ranks|, m)
    ensures m == Records(Layout(ranks, cells))
  {
    assert ranks[..|ranks|] == ranks;
    FilledPrefix(ranks, cells, cells, m);
  }

  lemma {:induction false} FilledPrefix(ranks: seq<int>, cells: nat, g: nat, m: seq<Record>)
    requires |ranks| == Edge(ranks, cells) && Filled(ranks, cells, |ranks|, m) && g <= cells
    ensures Edge(ranks, g) <= |m|
    ensures forall i :: 0 <= i < Edge(ranks, g) ==> m[i] == Record(Layout(ranks, g)[i])
  {
    if g > 0 {
      FilledPrefix(ranks, cells, g - 1, m);
      BucketFilled(ranks, cells, g - 1, m);
      assert Layout(ranks, g) == Layout(ranks, g - 1) + Bucket(ranks, g - 1);
      hide Filled, Layout, Bucket;
      RecordsAppend(Layout(ranks, g - 1), Bucket(ranks, g - 1), m);
    }
  }

  lemma {:induction false} BucketFilled(ranks: seq<int>, cells: nat, g: nat, m: seq<Record>)
    requires Filled(ranks, cells, |ranks|, m) && g < cells && |ranks| == Edge(ranks, cells)
    ensures Edge(ranks, g) + |Bucket(ranks, g)| <= |m|
    ensures forall j :: 0 <= j < |Bucket(ranks, g)| ==> m[Edge(ranks, g) + j] == Record(Bucket(ranks, g)[j])
  {
    assert ranks[..|ranks|] == ranks;
    LayoutSlice(ranks, g, cells);
    hide Layout, Bucket;
    forall j | 0 <= j < |Bucket(ranks, g)|
      ensures m[Edge(ranks, g) + j] == Record(Bucket(ranks, g)[j])
    {
      assert SlotHolds(ranks, |ranks|, m, g, j);
    }
  }

  lemma RecordsAppend(a: seq<int>, b: seq<int>, m: seq<Record>)
    requires |a| + |b| <= |m| && (forall i :: 0 <= i < |a| ==> m[i] == Record(a[i]))
    requires forall j :: 0 <= j < |b| ==> m[|a| + j] == Record(b[j])
    ensures forall i :: 0 <= i < |a| + |b| ==> m[i] == Record((a + b)[i])
  {
    forall i | |a| <= i < |a| + |b|
      ensures m[i] == Record((a + b)[i])
    {
      assert m[|a| + (i - |a|)] == Record(b[i - |a|]);
    }
  }

  /** table[g] is the number of points of cell g among the first p. */
  ghost predicate CountsOf(ranks: seq<int>, p: nat, table: seq<int>)
    requires p <= |ranks|
  {
    forall g :: 0 <= g < |table| ==> table[g] == |Bucket(ranks[..p], g)|
  }

  lemma {:induction false} CountNext(ranks: seq<int>, p: nat, table: seq<int>)
    requires p < |ranks| && 0 <= ranks[p] < |table| && CountsOf(ranks, p, table)
    ensures CountsOf(ranks, p + 1, table[ranks[p] := table[ranks[p]] + 1])
  {
    BucketNext(ranks, p);
  }

  /** Point p goes behind the points its cell has already. */
  lemma {:induction false} PlaceNext(ranks: seq<int>, p: nat, m: seq<Record>, table: seq<int>)
    requires p < |ranks| && forall q :: 0 <= q < |ranks| ==> 0 <= ranks[q] < |table|
    requires Filled(ranks, |table|, p, m) && CountsOf(ranks, p, table)
    ensures 0 <= Edge(ranks, ranks[p]) + table[ranks[p]] < |m|
    ensures Filled(ranks, |table|, p + 1, m[Edge(ranks, ranks[p]) + table[ranks[p]] := Record(p)])
    ensures CountsOf(ranks, p + 1, table[ranks[p] := table[ranks[p]] + 1])
  {
    hide Layout, Bucket, Filled;
    LayoutIsPermutation(ranks, |table|);
    FillNext(ranks, |table|, p, m);
    CountNext(ranks, p, table);
  }

  /** Ranks of the cells the points are quantized to. */
  function Ranks(dims: seq<int>, quantizations: seq<seq<int>>): seq<int>
    requires forall p :: 0 <= p < |quantizations| ==> |quantizations[p]| >= |dims|
  {
    seq(|quantizations|, p requires 0 <= p < |quantizations| => Offset(dims, quantizations[p]))
  }

  ghost predicate GoodQuantizations(dims: seq<int>, quantizations: seq<seq<int>>) {
    && dims != [] && Positive(dims)
    && forall p :: 0 <= p < |quantizations| ==> InGrid(dims, quantizations[p])
  }

  lemma {:induction false} RanksInTable(dims: seq<int>, quantizations: seq<seq<int>>)
    requires GoodQuantizations(dims, quantizations)
    ensures forall p :: 0 <= p < |quantizations| ==> 0 <= Ranks(dims, quantizations)[p] < Product(dims)
  {
    forall p | 0 <= p < |quantizations|
      ensures 0 <= Ranks(dims, quantizations)[p] < Product(dims)
    {
      OffsetBounds(dims, quantizations[p]);
    }
  }

  class MultiIndexer {
    const pointInCellsCount: Multitable<int>
    const cellEdges: Multitable<int>
    var multiindex: seq<Record>

    constructor (dims: seq<int>)
      requires Positive(dims)
      ensures fresh(pointInCellsCount) && fresh(cellEdges) && pointInCellsCount != cellEdges
      ensures pointInCellsCount.Shaped() && pointInCellsCount.dimensions == dims
      ensures forall g :: 0 <= g < |pointInCellsCount.table| ==> pointInCellsCount.table[g] == 0
      ensures cellEdges.Shaped() && cellEdges.dimensions == dims
    {
      pointInCellsCount := new Multitable(dims, 0);
      cellEdges := new Multitable(dims, 0);
      multiindex := [];
    }

    /** table counts, for every cell, the points written among the first p. */
    ghost predicate Counted(counts: Multitable<int>, dims: seq<int>, quantizations: seq<seq<int>>, p: nat)
      requires GoodQuantizations(dims, quantizations) && p <= |quantizations|
      reads counts
    {
      && counts.Shaped() && counts.dimensions == dims
      && CountsOf(Ranks(dims, quantizations), p, counts.table)
    }

    /** Counting the points of every cell. */
    method CountPointsInCells(quantizations: seq<seq<int>>)
      requires GoodQuantizations(pointInCellsCount.dimensions, quantizations)
      requires pointInCellsCount.Shaped()
      requires forall g :: 0 <= g < |pointInCellsCount.table| ==> pointInCellsCount.table[g] == 0
      modifies pointInCellsCount`table
      ensures Counted(pointInCellsCount, pointInCellsCount.dimensions, quantizations, |quantizations|)
    {
      ghost var dims := pointInCellsCount.dimensions;
      ghost var ranks := Ranks(dims, quantizations);
      RanksInTable(dims, quantizations);
      var pid := 0;
      while pid < |quantizations|
        invariant 0 <= pid <= |quantizations|
        invariant Counted(pointInCellsCount, dims, quantizations, pid)
      {
        var g := pointInCellsCount.GetCellGlobalIndex(quantizations[pid]);
        CountNext(ranks, pid, pointInCellsCount.table);
        pointInCellsCount.table := pointInCellsCount.table[g.value := pointInCellsCount.table[g.value] + 1];
        pid := pid + 1;
      }
    }

    /** Prefix sums of the counts are the edges of the buckets. */
    method ConvertPointsInCellsCountToCellEdges(ghost quantizations: seq<seq<int>>)
      requires pointInCellsCount != cellEdges
      requires GoodQuantizations(pointInCellsCount.dimensions, quantizations)
      requires Counted(pointInCellsCount, pointInCellsCount.dimensions, quantizations, |quantizations|)
      modifies pointInCellsCount`table, cellEdges
      ensures cellEdges.Shaped() && cellEdges.dimensions == pointInCellsCount.dimensions
      ensures forall g :: 0 <= g < |cellEdges.table| ==>
        cellEdges.table[g] == Edge(Ranks(cellEdges.dimensions, quantizations), g)
      ensures pointInCellsCount.table == []
    {
      ghost var dims := pointInCellsCount.dimensions;
      ghost var ranks := Ranks(dims, quantizations);
      assert ranks[..|ranks|] == ranks && Edge(ranks, 0) == 0;
      ProductPositive(dims);
      cellEdges.table := pointInCellsCount.table;
      cellEdges.dimensions := pointInCellsCount.dimensions;
      cellEdges.table := cellEdges.table[0 := 0];
      hide Layout, Bucket, Product;
      var g := 1;
      while g < |pointInCellsCount.table|
        invariant 1 <= g <= |pointInCellsCount.table| == |cellEdges.table|
        invariant cellEdges.dimensions == dims
        invariant pointInCellsCount.table == old(pointInCellsCount.table)
        invariant forall k :: 0 <= k < g ==> cellEdges.table[k] == Edge(ranks, k)
      {
        EdgeNext(ranks, g);
        cellEdges.table := cellEdges.table[g := cellEdges.table[g - 1] + pointInCellsCount.table[g - 1]];
        g := g + 1;
      }
      pointInCellsCount.table := [];
    }

    /** The edges are those of the quantized points; the first p points are placed. */
    ghost predicate Filling(quantizations: seq<seq<int>>, written: Multitable<int>, p: nat)
      reads this, cellEdges, written
    {
      && p <= |quantizations|
      && cellEdges.Shaped() && GoodQuantizations(cellEdges.dimensions, quantizations)
      && (forall g :: 0 <= g < |cellEdges.table| ==>
        cellEdges.table[g] == Edge(Ranks(cellEdges.dimensions, quantizations), g))
      && Counted(written, cellEdges.dimensions, quantizations, p)
      && Filled(Ranks(cellEdges.dimensions, quantizations), |cellEdges.table|, p, multiindex)
    }

    /** One round of the fill loop. */
    method PlacePoint(pid: nat, quantizations: seq<seq<int>>, written: Multitable<int>)
      requires written != cellEdges
      requires pid < |quantizations| && Filling(quantizations, written, pid)
      modifies this`multiindex, written`table
      ensures Filling(quantizations, written, pid + 1)
    {
      ghost var ranks := Ranks(cellEdges.dimensions, quantizations);
      RanksInTable(cellEdges.dimensions, quantizations);
      var currentWritten := written.GetValue(quantizations[pid]);
      var edge := cellEdges.GetValue(quantizations[pid]);
      PlaceNext(ranks, pid, multiindex, written.table);
      multiindex := multiindex[edge.value + currentWritten.value := Record(pid)];
      var _ := written.SetValue(currentWritten.value + 1, quantizations[pid]);
    }

    /** The fill of one range of points, behind the points written before it. */
    method FillMultiIndexForSubset(startPid: nat, pointsCount: nat, quantizations: seq<seq<int>>,
                                   written: Multitable<int>)
      requires startPid + pointsCount <= |quantizations|
      requires written != cellEdges && Filling(quantizations, written, startPid)
      modifies this`multiindex, written`table
      ensures Filling(quantizations, written, startPid + pointsCount)
    {
      var n := 0;
      while n < pointsCount
        invariant 0 <= n <= pointsCount
        invariant Filling(quantizations, written, startPid + n)
      {
        PlacePoint(startPid + n, quantizations, written);
        n := n + 1;
      }
    }

    /**
     The index built by one thread: every record is the one the layout puts
     there, so each cell's range holds exactly its own points in id order.
     */
    method FillMultiIndex(quantizations: seq<seq<int>>)
      requires pointInCellsCount != cellEdges
      requires GoodQuantizations(pointInCellsCount.dimensions, quantizations)
      requires Counted(pointInCellsCount, pointInCellsCount.dimensions, quantizations, |quantizations|)
      requires multiindex == []
      modifies this`multiindex, pointInCellsCount`table, cellEdges
      ensures cellEdges.Shaped() && cellEdges.dimensions == pointInCellsCount.dimensions
      ensures var ranks := Ranks(cellEdges.dimensions, quantizations);
        && (forall g :: 0 <= g < |cellEdges.table| ==> cellEdges.table[g] == Edge(ranks, g))
        && |Layout(ranks, |cellEdges.table|)| == |quantizations|
        && multiindex == Records(Layout(ranks, |cellEdges.table|))
    {
      ConvertPointsInCellsCountToCellEdges(quantizations);
      multiindex := seq(|quantizations|, _ => Blank);
      var written := new Multitable(cellEdges.dimensions, 0);
      ghost var ranks := Ranks(cellEdges.dimensions, quantizations);
      RanksInTable(cellEdges.dimensions, quantizations);
      LayoutIsPermutation(ranks, |cellEdges.table|);
      FillMultiIndexForSubset(0, |quantizations|, quantizations, written);
      FilledIsLayout(ranks, |cellEdges.table|, multiindex);
    }
  }
}
