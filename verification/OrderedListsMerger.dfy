/**
 The multi-sequence merger: it enumerates the cells of a grid of sorted lists in
 order of their coordinate sums, keeping only a frontier of the enumeration.
 */
module OrderedListsMergers {
  import opened DistinctSeqs
  import opened Multitables

  type Cell = seq<int>
  type Lists = seq<seq<(real, int)>>

  /** A node of the multimap. */
  datatype Item = Item(sum: real, cell: Cell)

  function Widths(lists: Lists): seq<int> {
    seq(|lists|, i requires 0 <= i < |lists| => |lists[i]|)
  }

  ghost predicate Ordered(list: seq<(real, int)>) {
    forall i, j :: 0 <= i <= j < |list| ==> list[i].0 <= list[j].0
  }

  /** What setLists expects: at least one list, none empty, each sorted. */
  ghost predicate GoodLists(lists: Lists) {
    && |lists| > 0
    && forall l :: 0 <= l < |lists| ==> |lists[l]| > 0 && Ordered(lists[l])
  }

  /** Sum of the orders selected by the first k coordinates. */
  function SumUpTo(lists: Lists, cell: Cell, k: nat): real
    requires k <= |lists| && InGrid(Widths(lists), cell)
  {
    if k == 0 then 0.0 else SumUpTo(lists, cell, k - 1) + lists[k - 1][cell[k - 1]].0
  }

  function CellSum(lists: Lists, cell: Cell): real
    requires InGrid(Widths(lists), cell)
  {
    SumUpTo(lists, cell, |lists|)
  }

  lemma SumSingle(list: seq<(real, int)>, i: int)
    requires 0 <= i < |list|
    ensures InGrid(Widths([list]), [i]) && CellSum([list], [i]) == list[i].0
  {
    assert InGrid(Widths([list]), [i]);
    assert SumUpTo([list], [i], 0) == 0.0;
  }

  lemma {:induction false} SumOfFront(a: Lists, c: Cell, b: Lists, d: Cell, k: nat)
    requires InGrid(Widths(a), c) && InGrid(Widths(b), d) && k <= |a|
    ensures InGrid(Widths(a + b), c + d) && SumUpTo(a + b, c + d, k) == SumUpTo(a, c, k)
  {
    if k > 0 {
      SumOfFront(a, c, b, d, k - 1);
    }
  }

  /** The sum over two groups of lists is the sum of the sums over each; that of one list is the order picked there. */
  lemma {:induction false} SumConcat(a: Lists, c: Cell, b: Lists, d: Cell)
    requires InGrid(Widths(a), c) && InGrid(Widths(b), d)
    ensures InGrid(Widths(a + b), c + d) && CellSum(a + b, c + d) == CellSum(a, c) + CellSum(b, d)
    ensures |a| == 1 ==> CellSum(a, c) == a[0][c[0]].0
  {
    SumOfFront(a, c, b, d, |a|);
    SumOfBack(a, c, b, d, |b|);
    if |a| == 1 {
      assert a == [a[0]] && c == [c[0]];
      SumSingle(a[0], c[0]);
    }
  }

  lemma {:induction false} SumOfBack(a: Lists, c: Cell, b: Lists, d: Cell, k: nat)
    requires InGrid(Widths(a), c) && InGrid(Widths(b), d) && k <= |b|
    ensures InGrid(Widths(a + b), c + d) && SumUpTo(a + b, c + d, |a| + k) == CellSum(a, c) + SumUpTo(b, d, k)
  {
    if k == 0 {
      SumOfFront(a, c, b, d, |a|);
    } else {
      SumOfBack(a, c, b, d, k - 1);
    }
  }

  ghost predicate Below(a: Cell, b: Cell) {
    |a| == |b| && forall i :: 0 <= i < |a| ==> a[i] <= b[i]
  }

  lemma {:induction false} SumMonotone(lists: Lists, a: Cell, b: Cell, k: nat)
    requires GoodLists(lists) && k <= |lists|
    requires InGrid(Widths(lists), a) && InGrid(Widths(lists), b) && Below(a, b)
    ensures SumUpTo(lists, a, k) <= SumUpTo(lists, b, k)
  {
    if k > 0 {
      SumMonotone(lists, a, b, k - 1);
    }
  }

  function Succ(c: Cell, i: int): Cell
    requires 0 <= i < |c|
  {
    c[i := c[i] + 1]
  }

  function Pred(c: Cell, i: int): Cell
    requires 0 <= i < |c|
  {
    c[i := c[i] - 1]
  }

  /** Every predecessor of c inside the grid has been yielded. */
  ghost predicate Ready(yielded: set<Cell>, c: Cell) {
    forall l :: 0 <= l < |c| && c[l] > 0 ==> Pred(c, l) in yielded
  }

  /** h holds exactly the unyielded cells all of whose predecessors are yielded. */
  ghost predicate IsFrontier(w: seq<int>, yielded: set<Cell>, h: set<Cell>) {
    forall c :: c in h <==> InGrid(w, c) && c !in yielded && Ready(yielded, c)
  }

  function Weight(c: Cell): int {
    if c == [] then 0 else c[0] + Weight(c[1..])
  }

  lemma {:induction false} WeightPred(c: Cell, l: nat)
    requires l < |c|
    ensures Weight(Pred(c, l)) == Weight(c) - 1
  {
    if l == 0 {
      assert Pred(c, 0)[1..] == c[1..];
    } else {
      WeightPred(c[1..], l - 1);
      assert Pred(c, l)[1..] == Pred(c[1..], l - 1);
    }
  }

  lemma {:induction false} WeightNat(w: seq<int>, c: Cell)
    requires InGrid(w, c)
    ensures Weight(c) >= 0
  {
    if c != [] {
      WeightNat(w[1..], c[1..]);
    }
  }

  /** Below every unyielded cell there is a cell of the frontier. */
  lemma {:induction false} FrontierBelow(w: seq<int>, yielded: set<Cell>, h: set<Cell>, g: Cell) returns (f: Cell)
    requires IsFrontier(w, yielded, h) && InGrid(w, g) && g !in yielded
    ensures f in h && Below(f, g)
    decreases Weight(g)
  {
    if Ready(yielded, g) {
      f := g;
    } else {
      var l :| 0 <= l < |g| && g[l] > 0 && Pred(g, l) !in yielded;
      WeightPred(g, l);
      WeightNat(w, g);
      WeightNat(w, Pred(g, l));
      f := FrontierBelow(w, yielded, h, Pred(g, l));
    }
  }

  /** A cell newly reached once c is yielded. */
  ghost predicate Reached(w: seq<int>, yielded: set<Cell>, c: Cell, k: int, x: Cell)
    requires k <= |c|
  {
    && InGrid(w, x) && Ready(yielded, x)
    && exists j :: 0 <= j < k && x == Succ(c, j)
  }

  /** Yielding a frontier cell turns its ready successors into frontier cells. */
  lemma {:induction false} FrontierStep(w: seq<int>, yielded: set<Cell>, h: set<Cell>, c: Cell, h': set<Cell>)
    requires IsFrontier(w, yielded, h) && c in h
    requires forall y :: y in yielded ==> Ready(yielded, y)
    requires forall x :: x in h' <==> x != c && (x in h || Reached(w, yielded + {c}, c, |c|, x))
    ensures IsFrontier(w, yielded + {c}, h')
    ensures forall y :: y in yielded + {c} ==> Ready(yielded + {c}, y)
  {
    var yielded' := yielded + {c};
    forall x
      ensures x in h' <==> InGrid(w, x) && x !in yielded' && Ready(yielded', x)
    {
      if x in h' {
        JoinsFrontier(w, yielded, h, c, x);
      } else if InGrid(w, x) && x !in yielded' && Ready(yielded', x) {
        NewlyReady(w, yielded, h, c, x);
      }
    }
  }

  /** A cell of the new frontier is unyielded and ready. */
  lemma {:induction false} JoinsFrontier(w: seq<int>, yielded: set<Cell>, h: set<Cell>, c: Cell, x: Cell)
    requires IsFrontier(w, yielded, h) && c in h && x != c
    requires forall y :: y in yielded ==> Ready(yielded, y)
    requires x in h || Reached(w, yielded + {c}, c, |c|, x)
    ensures InGrid(w, x) && x !in yielded && Ready(yielded + {c}, x)
  {
    if x !in h {
      var j :| 0 <= j < |c| && x == Succ(c, j);
      assert Pred(x, j) == c;
      assert x in yielded ==> Ready(yielded, x);
    }
  }

  /** A cell that has become ready is a successor of the yielded one. */
  lemma {:induction false} NewlyReady(w: seq<int>, yielded: set<Cell>, h: set<Cell>, c: Cell, x: Cell)
    requires IsFrontier(w, yielded, h) && c in h && InGrid(w, x) && x !in yielded && Ready(yielded + {c}, x)
    ensures x in h || Reached(w, yielded + {c}, c, |c|, x)
  {
    if !Ready(yielded, x) {
      var l :| 0 <= l < |x| && x[l] > 0 && Pred(x, l) !in yielded;
      assert x == Succ(c, l);
    }
  }

  /** Items in multimap order. */
  ghost predicate SortedItems(heap: seq<Item>) {
    forall i, j :: 0 <= i < j < |heap| ==> heap[i].sum <= heap[j].sum
  }

  /** Position of the first item with a key greater than sum. */
  function UpperBound(heap: seq<Item>, sum: real): (p: nat)
    ensures p <= |heap|
    ensures forall i :: 0 <= i < p ==> heap[i].sum <= sum
    ensures p < |heap| ==> sum < heap[p].sum
  {
    if heap == [] || sum < heap[0].sum then 0 else 1 + UpperBound(heap[1..], sum)
  }

  /** multimap::insert places an item after the items of equal key. */
  function MultimapInsert(heap: seq<Item>, item: Item): seq<Item> {
    var p := UpperBound(heap, item.sum);
    heap[..p] + [item] + heap[p..]
  }

  ghost function CellsOf(heap: seq<Item>): set<Cell> {
    set i | 0 <= i < |heap| :: heap[i].cell
  }

  ghost predicate DistinctCells(heap: seq<Item>) {
    forall i, j :: 0 <= i < j < |heap| ==> heap[i].cell != heap[j].cell
  }

  ghost predicate GoodItem(lists: Lists, item: Item) {
    InGrid(Widths(lists), item.cell) && item.sum == CellSum(lists, item.cell)
  }

  ghost predicate GoodItems(lists: Lists, heap: seq<Item>) {
    forall i :: 0 <= i < |heap| ==> GoodItem(lists, heap[i])
  }

  ghost predicate GoodHeap(lists: Lists, heap: seq<Item>) {
    SortedItems(heap) && GoodItems(lists, heap) && DistinctCells(heap)
  }

  lemma {:induction false} InsertAt(heap: seq<Item>, item: Item, p: nat)
    requires p == UpperBound(heap, item.sum)
    ensures |MultimapInsert(heap, item)| == |heap| + 1
    ensures forall i :: 0 <= i < p ==> MultimapInsert(heap, item)[i] == heap[i]
    ensures MultimapInsert(heap, item)[p] == item
    ensures forall i :: p < i <= |heap| ==> MultimapInsert(heap, item)[i] == heap[i - 1]
  {
  }

  lemma {:induction false} InsertKeepsCells(heap: seq<Item>, item: Item)
    ensures CellsOf(MultimapInsert(heap, item)) == CellsOf(heap) + {item.cell}
  {
    var p := UpperBound(heap, item.sum);
    var r := MultimapInsert(heap, item);
    InsertAt(heap, item, p);
    forall i | 0 <= i < |heap|
      ensures heap[i].cell in CellsOf(r)
    {
      assert heap[i] == r[if i < p then i else i + 1];
    }
    assert r[p].cell == item.cell;
    forall i | 0 <= i < |r|
      ensures r[i].cell in CellsOf(heap) + {item.cell}
    {
      assert r[i] == if i < p then heap[i] else if i == p then item else heap[i - 1];
    }
  }

  lemma {:induction false} InsertKeepsHeap(lists: Lists, heap: seq<Item>, item: Item)
    requires GoodHeap(lists, heap) && GoodItem(lists, item)
    requires item.cell !in CellsOf(heap)
    ensures GoodHeap(lists, MultimapInsert(heap, item))
    ensures heap != [] && heap[0].sum <= item.sum ==> MultimapInsert(heap, item)[0] == heap[0]
  {
    InsertAt(heap, item, UpperBound(heap, item.sum));
    SpliceKeepsHeap(lists, heap, item, UpperBound(heap, item.sum), MultimapInsert(heap, item));
  }

  lemma {:induction false} SpliceKeepsHeap(lists: Lists, heap: seq<Item>, item: Item, p: nat, r: seq<Item>)
    requires GoodHeap(lists, heap) && GoodItem(lists, item) && item.cell !in CellsOf(heap)
    requires p <= |heap| && |r| == |heap| + 1 && r[p] == item
    requires forall i :: 0 <= i < p ==> r[i] == heap[i] && heap[i].sum <= item.sum
    requires forall i :: p < i <= |heap| ==> r[i] == heap[i - 1]
    requires p < |heap| ==> item.sum < heap[p].sum
    ensures GoodHeap(lists, r)
  {
    forall i, j | 0 <= i < j < |r|
      ensures r[i].sum <= r[j].sum && r[i].cell != r[j].cell
    {
      if i == p {
        assert heap[p].sum <= heap[j - 1].sum && heap[j - 1].cell in CellsOf(heap);
      } else if j == p {
        assert heap[i].cell in CellsOf(heap);
      } else {
        assert r[i] == heap[if i < p then i else i - 1];
        assert r[j] == heap[if j < p then j else j - 1];
      }
    }
    forall i | 0 <= i < |r|
      ensures GoodItem(lists, r[i])
    {
      assert i == p || r[i] == heap[if i < p then i else i - 1];
    }
  }

  /** The cells yielded so far, in order: distinct and of nondecreasing sum. */
  ghost predicate GoodHistory(lists: Lists, history: seq<Cell>) {
    && (forall c :: c in history ==> InGrid(Widths(lists), c))
    && Distinct(history)
    && forall i, j :: 0 <= i < j < |history| ==> CellSum(lists, history[i]) <= CellSum(lists, history[j])
  }

  /** No cell outside the history has a sum below the last one yielded. */
  ghost predicate HistoryFirst(lists: Lists, history: seq<Cell>)
    requires GoodHistory(lists, history)
  {
    forall i, g :: 0 <= i < |history| && InGrid(Widths(lists), g) && g !in history ==>
      CellSum(lists, history[i]) <= CellSum(lists, g)
  }

  ghost function Elements(history: seq<Cell>): set<Cell> {
    set c | c in history
  }

  /** The least item of the heap is no greater than any unyielded cell. */
  lemma {:induction false} HeapMinimum(lists: Lists, history: seq<Cell>, heap: seq<Item>, g: Cell)
    requires GoodLists(lists) && GoodHeap(lists, heap)
    requires IsFrontier(Widths(lists), Elements(history), CellsOf(heap))
    requires InGrid(Widths(lists), g) && g !in history
    ensures heap != [] && heap[0].sum <= CellSum(lists, g)
  {
    var f := FrontierBelow(Widths(lists), Elements(history), CellsOf(heap), g);
    var i :| 0 <= i < |heap| && heap[i].cell == f;
    assert GoodItem(lists, heap[i]);
    SumMonotone(lists, f, g, |lists|);
  }

  lemma {:induction false} ExtendHistory(lists: Lists, history: seq<Cell>, heap: seq<Item>)
    requires GoodLists(lists) && GoodHeap(lists, heap) && heap != []
    requires IsFrontier(Widths(lists), Elements(history), CellsOf(heap))
    requires GoodHistory(lists, history) && HistoryFirst(lists, history)
    ensures GoodHistory(lists, history + [heap[0].cell])
    ensures HistoryFirst(lists, history + [heap[0].cell])
    ensures heap[0].cell !in history
  {
    var c := heap[0].cell;
    assert c in CellsOf(heap);
    assert GoodItem(lists, heap[0]);
    var history' := history + [c];
    forall i, g | 0 <= i < |history'| && InGrid(Widths(lists), g) && g !in history'
      ensures CellSum(lists, history'[i]) <= CellSum(lists, g)
    {
      assert g !in history;
      if i == |history| {
        HeapMinimum(lists, history, heap, g);
      }
    }
  }

  /** The cells of the grid in row-major order. */
  ghost function AllCells(w: seq<int>): (cells: seq<Cell>)
    requires Positive(w)
    ensures |cells| == Product(w)
  {
    ProductPositive(w);
    seq(Product(w), i requires 0 <= i < Product(w) => CellAt(w, i))
  }

  lemma {:induction false} AllCellsDistinct(w: seq<int>)
    requires Positive(w)
    ensures Distinct(AllCells(w))
    ensures forall c :: c in AllCells(w) <==> InGrid(w, c)
  {
    var cells := AllCells(w);
    forall i | 0 <= i < |cells|
      ensures InGrid(w, cells[i]) && Offset(w, cells[i]) == i
    {
      OffsetCellAt(w, i);
    }
    forall c | InGrid(w, c)
      ensures c in cells
    {
      OffsetBounds(w, c);
      CellAtOffset(w, c);
      assert cells[Offset(w, c)] == c;
    }
  }

  /** However far the enumeration runs, it yields no more cells than the grid has. */
  lemma {:induction false} HistoryBounded(lists: Lists, history: seq<Cell>)
    requires GoodLists(lists) && GoodHistory(lists, history)
    ensures |history| <= Product(Widths(lists))
  {
    AllCellsDistinct(Widths(lists));
    DistinctSubset(history, AllCells(Widths(lists)));
  }

  /** An enumeration that ran until false yielded every cell exactly once, in order of sums. */
  lemma {:induction false} ExhaustedHistory(lists: Lists, history: seq<Cell>)
    requires GoodLists(lists) && GoodHistory(lists, history)
    requires forall g :: InGrid(Widths(lists), g) ==> g in history
    ensures multiset(history) == multiset(AllCells(Widths(lists)))
    ensures |history| == Product(Widths(lists))
  {
    AllCellsDistinct(Widths(lists));
    DistinctSameElements(history, AllCells(Widths(lists)));
  }

  class OrderedListsMerger {
    var lists: Lists
    var heap: seq<Item>
    const yieldedItems: Multitable<int>
    ghost var history: seq<Cell>

    ghost predicate TableMatches(yielded: seq<Cell>)
      reads this, yieldedItems
    {
      && yieldedItems.Shaped() && yieldedItems.dimensions == Widths(lists)
      && forall c :: InGrid(Widths(lists), c) ==> yieldedItems.At(c) == if c in yielded then 1 else 0
    }

    ghost predicate Valid()
      reads this, yieldedItems
    {
      Merging(lists, history, heap) && TableMatches(history)
    }

    /** The table is given its dimensions once, for lists of these lengths. */
    constructor (dims: seq<int>)
      requires Positive(dims)
      ensures fresh(yieldedItems) && yieldedItems.Shaped() && yieldedItems.dimensions == dims
    {
      lists := [];
      heap := [];
      history := [];
      yieldedItems := new Multitable(dims, 0);
    }

    method InsertMergedItemIndicesInHeap(indices: array<int>)
      requires GoodLists(lists) && InGrid(Widths(lists), indices[..])
      modifies `heap
      ensures heap == MultimapInsert(old(heap), Item(CellSum(lists, indices[..]), indices[..]))
    {
      var sum := 0.0;
      var l := 0;
      while l < |lists|
        invariant 0 <= l <= |lists|
        invariant sum == SumUpTo(lists, indices[..], l)
      {
        assert lists[l][indices[l]] == lists[l][indices[..][l]];
        sum := sum + lists[l][indices[l]].0;
        l := l + 1;
      }
      heap := MultimapInsert(heap, Item(sum, indices[..]));
    }

    method SetLists(newLists: Lists)
      requires GoodLists(newLists)
      requires yieldedItems.Shaped() && yieldedItems.dimensions == Widths(newLists)
      modifies this, yieldedItems`table
      ensures Valid() && lists == newLists && history == []
    {
      lists := newLists;
      heap := [];
      history := [];
      var first := new int[|newLists|];
      var l := 0;
      while l < |newLists|
        invariant 0 <= l <= |newLists|
        invariant forall k :: 0 <= k < l ==> first[k] == 0
        invariant heap == []
        modifies first
      {
        first[l] := 0;
        l := l + 1;
      }
      ClearTable();
      InsertMergedItemIndicesInHeap(first);
      StartMerging(lists, first[..]);
    }

    method ClearTable()
      requires GoodLists(lists) && yieldedItems.Shaped() && yieldedItems.dimensions == Widths(lists)
      modifies yieldedItems`table
      ensures TableMatches([])
    {
      yieldedItems.table := seq(|yieldedItems.table|, _ => 0);
      forall c | InGrid(Widths(lists), c)
        ensures yieldedItems.At(c) == 0
      {
        OffsetBounds(Widths(lists), c);
      }
    }

    /**
     The successor s of a yielded cell c enters the heap exactly when it lies in
     the grid and all its predecessors are yielded.  Its vector is restored.
     */
    method UpdatePriorityQueue(indices: array<int>, ghost c: Cell, ghost i: int, ghost yielded: seq<Cell>)
      requires GoodLists(lists) && TableMatches(yielded)
      requires InGrid(Widths(lists), c) && c in yielded
      requires 0 <= i < |c| && indices[..] == Succ(c, i)
      modifies `heap, indices
      ensures indices[..] == old(indices[..])
      ensures heap == Offered(lists, Elements(yielded), old(heap), Succ(c, i))
    {
      ghost var s := Succ(c, i);
      ghost var w := Widths(lists);
      var l := 0;
      while l < |lists|
        invariant 0 <= l <= |lists|
        invariant indices[..] == s && heap == old(heap)
        invariant forall j :: 0 <= j < l ==> s[j] < w[j]
        invariant s[i] < w[i] ==> forall j :: 0 <= j < l && s[j] > 0 ==> Pred(s, j) in yielded
      {
        assert indices[l] == indices[..][l];
        if indices[l] >= |lists[l]| {
          return;
        }
        var blocked := PredecessorMissing(indices, c, i, l, yielded);
        if blocked {
          return;
        }
        l := l + 1;
      }
      InsertMergedItemIndicesInHeap(indices);
    }

    /** Steps coordinate l back, looks the predecessor up and restores the vector. */
    method PredecessorMissing(indices: array<int>, ghost c: Cell, ghost i: int, l: int, ghost yielded: seq<Cell>)
      returns (missing: bool)
      requires GoodLists(lists) && TableMatches(yielded) && InGrid(Widths(lists), c)
      requires 0 <= i < |c| && 0 <= l < |c| && indices[..] == Succ(c, i)
      requires forall j :: 0 <= j <= l ==> Succ(c, i)[j] < Widths(lists)[j]
      modifies indices
      ensures indices[..] == old(indices[..])
      ensures Succ(c, i)[i] < Widths(lists)[i] ==>
        (missing <==> Succ(c, i)[l] > 0 && Pred(Succ(c, i), l) !in yielded)
    {
      ghost var s := Succ(c, i);
      assert indices[l] == indices[..][l] == s[l];
      var current := indices[l];
      indices[l] := indices[l] - 1;
      assert indices[..] == Pred(s, l);
      missing := false;
      if current > 0 {
        PredecessorLookup(Widths(lists), c, i, l);
        var v := yieldedItems.GetValue(indices[..]);
        assert s[i] < Widths(lists)[i] ==> InGrid(Widths(lists), Pred(s, l));
        missing := v.value == 0;
      }
      indices[l] := indices[l] + 1;
      assert indices[..] == s;
    }

    /** The successor loop: each neighbour of the yielded cell c is offered. */
    method OfferSuccessors(next: array<int>, ghost c: Cell, ghost h: set<Cell>, ghost yielded: set<Cell>)
      requires GoodLists(lists) && TableMatches(history) && Elements(history) == yielded + {c}
      requires next[..] == c && InGrid(Widths(lists), c)
      requires Offering(lists, heap, h, yielded, c, 0)
      modifies `heap, next
      ensures next[..] == c
      ensures Offering(lists, heap, h, yielded, c, |lists|)
    {
      var l := 0;
      while l < |lists|
        invariant 0 <= l <= |lists|
        invariant next[..] == c
        invariant TableMatches(history)
        invariant Offering(lists, heap, h, yielded, c, l)
      {
        assert next[l] == next[..][l];
        next[l] := next[l] + 1;
        assert next[..] == Succ(c, l);
        OfferSuccessor(lists, heap, h, yielded, c, l);
        UpdatePriorityQueue(next, c, l, history);
        assert next[l] == next[..][l];
        next[l] := next[l] - 1;
        assert next[..] == c;
        l := l + 1;
      }
    }

    /**
     Yields the next cell: an unyielded one of least sum.  Returns false only
     when every cell of the grid has been yielded.
     */
    method GetNextMergedItemIndices(next: array<int>) returns (ok: bool)
      requires Valid() && next.Length == |lists|
      modifies this`heap, this`history, yieldedItems`table, next
      ensures Valid()
      ensures ok ==>
        && InGrid(Widths(lists), next[..]) && next[..] !in old(history)
        && history == old(history) + [next[..]]
        && forall g :: InGrid(Widths(lists), g) && g !in old(history) ==>
             CellSum(lists, next[..]) <= CellSum(lists, g)
      ensures !ok ==> history == old(history) && forall g :: InGrid(Widths(lists), g) ==> g in history
    {
      if heap == [] {
        EmptyHeap(lists, history, heap);
        return false;
      }
      ghost var h, was := heap, history;
      LeastFirst(lists, history, heap);
      YieldFirst(next);
      OfferSuccessors(next, h[0].cell, CellsOf(h), Elements(was));
      Yielded(lists, was, h, heap);
      heap := heap[1..];
      return true;
    }

    /** Marks the first cell of the heap as yielded. */
    method YieldFirst(next: array<int>)
      requires Valid() && heap != [] && next.Length == |lists|
      modifies this`history, yieldedItems`table, next
      ensures next[..] == heap[0].cell && history == old(history) + [heap[0].cell] && TableMatches(history)
      ensures Elements(history) == Elements(old(history)) + {heap[0].cell}
      ensures Offering(lists, heap, CellsOf(heap), Elements(old(history)), heap[0].cell, 0)
    {
      StartOffering(lists, history, heap);
      forall l | 0 <= l < |lists| {
        next[l] := heap[0].cell[l];
      }
      assert next[..] == heap[0].cell;
      var _ := yieldedItems.SetValue(1, next[..]);
      history := history + [heap[0].cell];
    }
  }

  /** Between two calls: the history is a sorted start of the enumeration, the heap its frontier. */
  ghost predicate Merging(lists: Lists, history: seq<Cell>, heap: seq<Item>) {
    && GoodLists(lists)
    && GoodHistory(lists, history) && HistoryFirst(lists, history)
    && GoodHeap(lists, heap)
    && IsFrontier(Widths(lists), Elements(history), CellsOf(heap))
    && forall c :: c in history ==> Ready(Elements(history), c)
  }

  lemma {:induction false} StartMerging(lists: Lists, first: Cell)
    requires GoodLists(lists) && |first| == |lists| && forall l :: 0 <= l < |first| ==> first[l] == 0
    ensures Merging(lists, [], MultimapInsert([], Item(CellSum(lists, first), first)))
  {
    var heap := [Item(CellSum(lists, first), first)];
    assert MultimapInsert([], heap[0]) == heap;
    assert GoodItem(lists, heap[0]) && CellsOf(heap) == {first};
    forall c
      ensures c == first <==> InGrid(Widths(lists), c) && Ready({}, c)
    {
      if InGrid(Widths(lists), c) && Ready({}, c) {
        assert c == first;
      }
    }
  }

  /** An empty frontier means that every cell was yielded. */
  lemma {:induction false} EmptyHeap(lists: Lists, history: seq<Cell>, heap: seq<Item>)
    requires Merging(lists, history, heap) && heap == []
    ensures forall g :: InGrid(Widths(lists), g) ==> g in history
  {
    forall g | InGrid(Widths(lists), g)
      ensures g in history
    {
      if g !in history {
        HeapMinimum(lists, history, heap, g);
      }
    }
  }

  lemma {:induction false} LeastFirst(lists: Lists, history: seq<Cell>, heap: seq<Item>)
    requires Merging(lists, history, heap) && heap != []
    ensures InGrid(Widths(lists), heap[0].cell) && heap[0].cell !in history
    ensures forall g :: InGrid(Widths(lists), g) && g !in history ==>
      CellSum(lists, heap[0].cell) <= CellSum(lists, g)
  {
    assert GoodItem(lists, heap[0]);
    ExtendHistory(lists, history, heap);
    forall g | InGrid(Widths(lists), g) && g !in history
      ensures heap[0].sum <= CellSum(lists, g)
    {
      HeapMinimum(lists, history, heap, g);
    }
  }

  lemma {:induction false} StartOffering(lists: Lists, history: seq<Cell>, heap: seq<Item>)
    requires Merging(lists, history, heap) && heap != []
    ensures InGrid(Widths(lists), heap[0].cell)
    ensures Offering(lists, heap, CellsOf(heap), Elements(history), heap[0].cell, 0)
    ensures Elements(history + [heap[0].cell]) == Elements(history) + {heap[0].cell}
  {
    assert GoodItem(lists, heap[0]) && heap[0].cell in CellsOf(heap);
  }

  /** With all successors offered and the first item erased, the next call can begin. */
  lemma {:induction false} Yielded(lists: Lists, history: seq<Cell>, h: seq<Item>, heap: seq<Item>)
    requires Merging(lists, history, h) && h != []
    requires Offering(lists, heap, CellsOf(h), Elements(history), h[0].cell, |lists|)
    ensures Merging(lists, history + [h[0].cell], heap[1..])
  {
    var c, yielded := h[0].cell, Elements(history);
    ExtendHistory(lists, history, h);
    FirstErased(lists, heap);
    FrontierStep(Widths(lists), yielded, CellsOf(h), c, CellsOf(heap[1..]));
    assert Elements(history + [c]) == yielded + {c};
  }

  lemma {:induction false} FirstErased(lists: Lists, heap: seq<Item>)
    requires GoodHeap(lists, heap) && heap != []
    ensures GoodHeap(lists, heap[1..])
    ensures CellsOf(heap[1..]) == CellsOf(heap) - {heap[0].cell}
  {
    forall i | 1 <= i < |heap|
      ensures heap[i].cell in CellsOf(heap[1..])
    {
      assert heap[i] == heap[1..][i - 1];
    }
  }

  /** The heap after UpdatePriorityQueue has looked at s. */
  ghost function Offered(lists: Lists, yielded: set<Cell>, heap: seq<Item>, s: Cell): seq<Item> {
    if InGrid(Widths(lists), s) && Ready(yielded, s)
    then MultimapInsert(heap, Item(CellSum(lists, s), s))
    else heap
  }

  /** The heap while c is being yielded, after its first l successors were offered. */
  ghost predicate Offering(lists: Lists, heap: seq<Item>, h: set<Cell>, yielded: set<Cell>, c: Cell, l: int) {
    && InGrid(Widths(lists), c) && 0 <= l <= |lists|
    && c in h && IsFrontier(Widths(lists), yielded, h)
    && (forall y :: y in yielded ==> Ready(yielded, y))
    && GoodHeap(lists, heap) && heap != [] && heap[0] == Item(CellSum(lists, c), c)
    && forall x :: x in CellsOf(heap) <==> x in h || Reached(Widths(lists), yielded + {c}, c, l, x)
  }

  /** A successor is no nearer than its predecessor, so it goes behind the minimum. */
  lemma {:induction false} InsertSuccessor(lists: Lists, heap: seq<Item>, c: Cell, l: nat)
    requires GoodLists(lists) && l < |lists| == |c| && InGrid(Widths(lists), c) && InGrid(Widths(lists), Succ(c, l))
    requires GoodHeap(lists, heap) && heap != [] && heap[0] == Item(CellSum(lists, c), c)
    requires Succ(c, l) !in CellsOf(heap)
    ensures var next := MultimapInsert(heap, Item(CellSum(lists, Succ(c, l)), Succ(c, l)));
      GoodHeap(lists, next) && next != [] && next[0] == heap[0] && CellsOf(next) == CellsOf(heap) + {Succ(c, l)}
  {
    var item := Item(CellSum(lists, Succ(c, l)), Succ(c, l));
    SumMonotone(lists, c, Succ(c, l), |lists|);
    InsertKeepsHeap(lists, heap, item);
    InsertKeepsCells(heap, item);
  }

  lemma {:induction false} OfferSuccessor(lists: Lists, heap: seq<Item>, h: set<Cell>, yielded: set<Cell>, c: Cell,
                                          l: nat)
    requires GoodLists(lists) && l < |lists| && Offering(lists, heap, h, yielded, c, l)
    ensures Offering(lists, Offered(lists, yielded + {c}, heap, Succ(c, l)), h, yielded, c, l + 1)
  {
    var s := Succ(c, l);
    if InGrid(Widths(lists), s) && Ready(yielded + {c}, s) {
      NotYetOffered(Widths(lists), h, yielded, c, l);
      InsertSuccessor(lists, heap, c, l);
      OfferingNext(lists, heap, MultimapInsert(heap, Item(CellSum(lists, s), s)), h, yielded, c, l, {s});
    } else {
      OfferingNext(lists, heap, heap, h, yielded, c, l, {});
    }
  }

  /** The heap after one more successor, which joined it if it is ready. */
  lemma {:induction false} OfferingNext(lists: Lists, heap: seq<Item>, next: seq<Item>, h: set<Cell>,
                                        yielded: set<Cell>, c: Cell, l: nat,
                                        joined: set<Cell>)
    requires l < |lists| && Offering(lists, heap, h, yielded, c, l)
    requires GoodHeap(lists, next) && next != [] && next[0] == heap[0] && CellsOf(next) == CellsOf(heap) + joined
    requires joined ==
      if InGrid(Widths(lists), Succ(c, l)) && Ready(yielded + {c}, Succ(c, l)) then {Succ(c, l)} else {}
    ensures Offering(lists, next, h, yielded, c, l + 1)
  {
    forall x
      ensures x in CellsOf(next) <==> x in h || Reached(Widths(lists), yielded + {c}, c, l + 1, x)
    {
      ReachedStep(Widths(lists), yielded + {c}, c, l, x);
    }
  }

  lemma {:induction false} ReachedStep(w: seq<int>, yielded: set<Cell>, c: Cell, l: nat, x: Cell)
    requires l < |c|
    ensures Reached(w, yielded, c, l + 1, x) <==>
      Reached(w, yielded, c, l, x) || (x == Succ(c, l) && InGrid(w, x) && Ready(yielded, x))
  {
  }

  lemma {:induction false} NotYetOffered(w: seq<int>, h: set<Cell>, yielded: set<Cell>, c: Cell, l: nat)
    requires l < |c| && c in h && IsFrontier(w, yielded, h)
    requires InGrid(w, Succ(c, l))
    ensures Succ(c, l) !in h && !Reached(w, yielded + {c}, c, l, Succ(c, l))
  {
    var s := Succ(c, l);
    assert Pred(s, l) == c && s[l] > 0;
    assert forall j :: 0 <= j < l ==> Succ(c, j)[l] != s[l];
  }

  /** The predecessor lookup addresses the table even when s has left the grid. */
  lemma {:induction false} PredecessorLookup(w: seq<int>, c: Cell, i: nat, l: nat)
    requires Positive(w) && InGrid(w, c) && i < |c| && l < |c|
    requires Succ(c, i)[l] > 0
    requires forall j :: 0 <= j <= l ==> Succ(c, i)[j] < w[j]
    ensures 0 <= Offset(w, Pred(Succ(c, i), l)) < Product(w)
  {
    var p := Pred(Succ(c, i), l);
    if l < i {
      OvershootBounds(w, c, l, i);
    } else {
      assert InGrid(w, p);
      OffsetBounds(w, p);
    }
  }
}
