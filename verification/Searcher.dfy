/**
 A query of the inverted multi-index: cells are traversed in merge order and
 their records appended until enough neighbours are found.
 */
module MultiSearchers {
  import opened DistinctSeqs
  import opened Sorting
  import opened Multitables
  import opened OrderedListsMergers
  import opened MultiIndexers

  datatype Neighbour = Neighbour(distance: real, pid: int)

  /** A value-initialized pair<Distance, PointId>. */
  const DEFAULT := Neighbour(0.0, 0)

  predicate Less(a: Neighbour, b: Neighbour) {
    a.distance < b.distance || (a.distance == b.distance && a.pid < b.pid)
  }

  /** Each list ranks some of the centroids of its subspace, each at most once. */
  ghost predicate ShortLists(dims: seq<int>, lists: Lists) {
    && GoodLists(lists) && |lists| == |dims|
    && (forall l, i :: 0 <= l < |lists| && 0 <= i < |lists[l]| ==> 0 <= lists[l][i].1 < dims[l])
    && forall l, i, j :: 0 <= l < |lists| && 0 <= i < j < |lists[l]| ==> lists[l][i].1 != lists[l][j].1
  }

  /** The centroid ids a merged item stands for. */
  function Coordinates(lists: Lists, cell: Cell): seq<int>
    requires InGrid(Widths(lists), cell)
  {
    seq(|lists|, l requires 0 <= l < |lists| => lists[l][cell[l]].1)
  }

  lemma {:induction false} CoordinatesInGrid(dims: seq<int>, lists: Lists, a: Cell)
    requires ShortLists(dims, lists) && InGrid(Widths(lists), a)
    ensures InGrid(dims, Coordinates(lists, a))
  {
  }

  lemma {:induction false} CoordinatesInjective(dims: seq<int>, lists: Lists, a: Cell, b: Cell)
    requires Positive(dims) && ShortLists(dims, lists)
    requires InGrid(Widths(lists), a) && InGrid(Widths(lists), b) && a != b
    ensures InGrid(dims, Coordinates(lists, a)) && InGrid(dims, Coordinates(lists, b))
    ensures Offset(dims, Coordinates(lists, a)) != Offset(dims, Coordinates(lists, b))
  {
    var l :| 0 <= l < |a| && a[l] != b[l];
    assert Coordinates(lists, a)[l] != Coordinates(lists, b)[l];
    if Offset(dims, Coordinates(lists, a)) == Offset(dims, Coordinates(lists, b)) {
      OffsetInjective(dims, Coordinates(lists, a), Coordinates(lists, b));
    }
  }

  /** Points of the cell a merged item stands for, in id order. */
  ghost function PointsOf(dims: seq<int>, ranks: seq<int>, lists: Lists, cell: Cell): seq<int>
    requires |dims| == |lists| && InGrid(Widths(lists), cell)
  {
    Bucket(ranks, Offset(dims, Coordinates(lists, cell)))
  }

  /** The points of the cells of a history, one cell after the other. */
  ghost function Gathered(dims: seq<int>, ranks: seq<int>, lists: Lists, history: seq<Cell>): seq<int>
    requires |dims| == |lists| && forall c :: c in history ==> InGrid(Widths(lists), c)
  {
    if history == [] then []
    else
      var n := |history| - 1;
      Gathered(dims, ranks, lists, history[..n]) + PointsOf(dims, ranks, lists, history[n])
  }

  lemma {:induction false} GatheredNext(dims: seq<int>, ranks: seq<int>, lists: Lists, history: seq<Cell>, cell: Cell)
    requires |dims| == |lists| && InGrid(Widths(lists), cell)
    requires forall c :: c in history ==> InGrid(Widths(lists), c)
    ensures forall c :: c in history + [cell] ==> InGrid(Widths(lists), c)
    ensures Gathered(dims, ranks, lists, history + [cell]) ==
      Gathered(dims, ranks, lists, history) + PointsOf(dims, ranks, lists, cell)
    ensures PointsOf(dims, ranks, lists, cell) == [] ==>
      Gathered(dims, ranks, lists, history + [cell]) == Gathered(dims, ranks, lists, history)
  {
    assert (history + [cell])[..|history|] == history;
  }

  lemma {:induction false} GatheredMembers(dims: seq<int>, ranks: seq<int>, lists: Lists, history: seq<Cell>)
    requires Positive(dims) && ShortLists(dims, lists) && GoodHistory(lists, history)
    ensures Distinct(Gathered(dims, ranks, lists, history))
    ensures forall p :: p in Gathered(dims, ranks, lists, history) <==>
      0 <= p < |ranks| && exists c :: c in history && ranks[p] == Offset(dims, Coordinates(lists, c))
  {
    if history != [] {
      var n := |history| - 1;
      var c, before := history[n], history[..n];
      GatheredMembers(dims, ranks, lists, before);
      BucketMembers(ranks, Offset(dims, Coordinates(lists, c)));
      assert forall d :: d in history <==> d == c || d in before;
      forall d | d in before
        ensures Offset(dims, Coordinates(lists, d)) != Offset(dims, Coordinates(lists, c))
      {
        CoordinatesInjective(dims, lists, d, c);
      }
      var a, b := Gathered(dims, ranks, lists, before), PointsOf(dims, ranks, lists, c);
      assert forall i :: 0 <= i < |a| ==> a[i] in a;
      assert forall i :: 0 <= i < |b| ==> b[i] in b;
    }
  }

  /** A point left out is in a cell no nearer than any cell gathered. */
  lemma {:induction false} LeftOutFarther(dims: seq<int>, ranks: seq<int>, lists: Lists, history: seq<Cell>, p: nat,
                                          g: Cell)
    requires Positive(dims) && ShortLists(dims, lists) && GoodHistory(lists, history) && HistoryFirst(lists, history)
    requires p < |ranks| && InGrid(Widths(lists), g) && ranks[p] == Offset(dims, Coordinates(lists, g))
    requires p !in Gathered(dims, ranks, lists, history)
    ensures forall c :: c in history ==> CellSum(lists, c) <= CellSum(lists, g)
  {
    GatheredMembers(dims, ranks, lists, history);
    assert g !in history;
    forall c | c in history
      ensures CellSum(lists, c) <= CellSum(lists, g)
    {
      var i :| 0 <= i < |history| && history[i] == c;
    }
  }

  /** Where the i-th gathered point comes from. */
  lemma {:induction false} GatheredAt(dims: seq<int>, ranks: seq<int>, lists: Lists, history: seq<Cell>, i: nat)
    returns (x: nat)
    requires |dims| == |lists| && forall c :: c in history ==> InGrid(Widths(lists), c)
    requires i < |Gathered(dims, ranks, lists, history)|
    ensures x < |history| && PointIn(dims, ranks, lists, Gathered(dims, ranks, lists, history)[i], history[x])
  {
    var n := |history| - 1;
    var front, last := Gathered(dims, ranks, lists, history[..n]), PointsOf(dims, ranks, lists, history[n]);
    if i < |front| {
      x := GatheredAt(dims, ranks, lists, history[..n], i);
    } else {
      x := n;
      BucketMembers(ranks, Offset(dims, Coordinates(lists, history[n])));
      assert last[i - |front|] in last;
    }
  }

  ghost predicate PointIn(dims: seq<int>, ranks: seq<int>, lists: Lists, p: int, cell: Cell)
    requires |dims| == |lists| && InGrid(Widths(lists), cell)
  {
    0 <= p < |ranks| && ranks[p] == Offset(dims, Coordinates(lists, cell))
  }

  lemma {:induction false} GatheredInOrder(dims: seq<int>, ranks: seq<int>, lists: Lists, history: seq<Cell>, i: nat,
                                           j: nat)
    returns (x: nat, y: nat)
    requires |dims| == |lists| && forall c :: c in history ==> InGrid(Widths(lists), c)
    requires i < j < |Gathered(dims, ranks, lists, history)|
    ensures x <= y < |history| && PointIn(dims, ranks, lists, Gathered(dims, ranks, lists, history)[i], history[x])
    ensures PointIn(dims, ranks, lists, Gathered(dims, ranks, lists, history)[j], history[y])
  {
    var n := |history| - 1;
    if j < |Gathered(dims, ranks, lists, history[..n])| {
      x, y := GatheredInOrder(dims, ranks, lists, history[..n], i, j);
    } else {
      x := GatheredAt(dims, ranks, lists, history, i);
      y := n;
      var front, last := Gathered(dims, ranks, lists, history[..n]), PointsOf(dims, ranks, lists, history[n]);
      BucketMembers(ranks, Offset(dims, Coordinates(lists, history[n])));
      assert last[j - |front|] in last;
    }
  }

  /** Cell c of the merge picks the centroids this point is quantized to. */
  ghost predicate Picks(lists: Lists, quantization: seq<int>, c: Cell) {
    && InGrid(Widths(lists), c) && |quantization| == |lists|
    && forall l :: 0 <= l < |lists| ==> lists[l][c[l]].1 == quantization[l]
  }

  /**
   Of two points gathered the earlier one has the lesser sum of orders, or the same: the sum over the places
   where the short lists hold the centroids the point is quantized to.
   */
  lemma {:induction false} PointOrder(dims: seq<int>, quantizations: seq<seq<int>>, lists: Lists, history: seq<Cell>,
                                      i: nat, j: nat) returns (a: Cell, b: Cell)
    requires GoodQuantizations(dims, quantizations) && ShortLists(dims, lists) && GoodHistory(lists, history)
    requires i < j < |Gathered(dims, Ranks(dims, quantizations), lists, history)|
    ensures var gathered := Gathered(dims, Ranks(dims, quantizations), lists, history);
      && 0 <= gathered[i] < |quantizations| && Picks(lists, quantizations[gathered[i]], a)
      && 0 <= gathered[j] < |quantizations| && Picks(lists, quantizations[gathered[j]], b)
      && CellSum(lists, a) <= CellSum(lists, b)
  {
    var ranks := Ranks(dims, quantizations);
    var gathered := Gathered(dims, ranks, lists, history);
    var x, y := GatheredInOrder(dims, ranks, lists, history, i, j);
    a, b := history[x], history[y];
    assert a in history && b in history;
    PicksOf(dims, quantizations, lists, gathered[i], a);
    PicksOf(dims, quantizations, lists, gathered[j], b);
  }

  lemma {:induction false} PicksOf(dims: seq<int>, quantizations: seq<seq<int>>, lists: Lists, p: int, c: Cell)
    requires GoodQuantizations(dims, quantizations) && ShortLists(dims, lists) && InGrid(Widths(lists), c)
    requires PointIn(dims, Ranks(dims, quantizations), lists, p, c)
    ensures 0 <= p < |quantizations| && Picks(lists, quantizations[p], c)
  {
    CoordinatesInGrid(dims, lists, c);
    OffsetInjective(dims, Coordinates(lists, c), quantizations[p]);
    assert forall l :: 0 <= l < |lists| ==> Coordinates(lists, c)[l] == lists[l][c[l]].1;
  }

  function Scored(score: int -> real, pids: seq<int>): seq<Neighbour> {
    seq(|pids|, i requires 0 <= i < |pids| => Neighbour(score(pids[i]), pids[i]))
  }

  function Min(a: int, b: int): int {
    if a < b then a else b
  }

  /** neighbours holds the first records of gathered, as many as fit, then blanks. */
  ghost predicate Collected(score: int -> real, gathered: seq<int>, neighbours: seq<Neighbour>, found: int) {
    && found == Min(|neighbours|, |gathered|)
    && neighbours[..found] == Scored(score, gathered[..found])
    && forall i :: found <= i < |neighbours| ==> neighbours[i] == DEFAULT
  }

  /** Distance counts first, then the id. */
  lemma SortedPairs(s: seq<Neighbour>)
    requires SortedBy(s, Less)
    ensures forall i, j :: 0 <= i < j < |s| ==>
      s[i].distance < s[j].distance || (s[i].distance == s[j].distance && s[i].pid <= s[j].pid)
  {
    assert forall i, j :: 0 <= i < j < |s| ==> !Less(s[j], s[i]);
  }

  lemma LessIsStrictWeak()
    ensures StrictWeakOrder(Less)
  {
  }

  /** The points whose every centroid is on the short lists. */
  ghost predicate Available(dims: seq<int>, ranks: seq<int>, lists: Lists, p: int)
    requires |dims| == |lists|
  {
    0 <= p < |ranks| &&
    exists c :: InGrid(Widths(lists), c) && ranks[p] == Offset(dims, Coordinates(lists, c))
  }

  /** The first k of the gathered points, scored, then value-initialized entries. */
  function Padded(score: int -> real, gathered: seq<int>, k: nat): seq<Neighbour> {
    var found := Min(k, |gathered|);
    Scored(score, gathered[..found]) + seq(k - found, _ => DEFAULT)
  }

  lemma {:induction false} CollectedIsPadded(score: int -> real, gathered: seq<int>, neighbours: seq<Neighbour>,
                                             found: int)
    requires Collected(score, gathered, neighbours, found)
    ensures neighbours == Padded(score, gathered, |neighbours|)
  {
    assert neighbours == neighbours[..found] + neighbours[found..];
  }

  lemma PaddedAt(score: int -> real, gathered: seq<int>, k: nat)
    ensures |Padded(score, gathered, k)| == k
    ensures forall i :: 0 <= i < k ==>
      Padded(score, gathered, k)[i] ==
      (if i < |gathered| then Neighbour(score(gathered[i]), gathered[i]) else Neighbour(0.0, 0))
  {
  }

  /** Would sorting put this point behind a blank entry? */
  predicate BehindBlank(score: int -> real, p: int) {
    Less(DEFAULT, Neighbour(score(p), p))
  }

  /**
   Sorting the whole answer leaves the neighbours found in its first places if
   and only if there are no blanks, or no point found sorts behind a blank.
   */
  lemma {:induction false} BlanksStayLast(score: int -> real, gathered: seq<int>, k: nat, answer: seq<Neighbour>)
    requires multiset(answer) == multiset(Padded(score, gathered, k)) && SortedBy(answer, Less)
    ensures |answer| == k
    ensures multiset(answer[..Min(k, |gathered|)]) == multiset(Scored(score, gathered[..Min(k, |gathered|)])) <==>
      k <= |gathered| || forall p :: p in gathered ==> !BehindBlank(score, p)
  {
    var found := Min(k, |gathered|);
    var scored, blanks := Scored(score, gathered[..found]), seq(k - found, _ => DEFAULT);
    assert multiset(answer) == multiset(scored) + multiset(blanks);
    BlanksLast(scored, blanks, answer);
    if k > |gathered| {
      assert gathered[..found] == gathered;
      assert forall i :: 0 <= i < |scored| ==> (BehindBlank(score, gathered[i]) <==> Less(DEFAULT, scored[i]));
    }
  }

  lemma {:induction false} BlanksLast(scored: seq<Neighbour>, blanks: seq<Neighbour>, answer: seq<Neighbour>)
    requires multiset(answer) == multiset(scored) + multiset(blanks) && SortedBy(answer, Less)
    requires forall i :: 0 <= i < |blanks| ==> blanks[i] == DEFAULT
    ensures |answer| == |scored| + |blanks|
    ensures multiset(answer[..|scored|]) == multiset(scored) <==>
      blanks == [] || forall i :: 0 <= i < |scored| ==> !Less(DEFAULT, scored[i])
  {
    assert |answer| == |multiset(answer)| == |multiset(scored)| + |multiset(blanks)|;
    if blanks == [] {
      assert answer[..|scored|] == answer;
    } else if multiset(answer[..|scored|]) == multiset(scored) {
      NothingBehind(scored, blanks, answer);
    } else if forall i :: 0 <= i < |scored| ==> !Less(DEFAULT, scored[i]) {
      BlanksSink(scored, blanks, answer);
    }
  }

  /** When nothing sorts behind a blank, the blanks end up last. */
  lemma {:induction false} BlanksSink(scored: seq<Neighbour>, blanks: seq<Neighbour>, answer: seq<Neighbour>)
    requires multiset(answer) == multiset(scored) + multiset(blanks) && SortedBy(answer, Less)
    requires |answer| == |scored| + |blanks| && forall i :: 0 <= i < |blanks| ==> blanks[i] == DEFAULT
    requires forall i :: 0 <= i < |scored| ==> !Less(DEFAULT, scored[i])
    ensures multiset(answer[..|scored|]) == multiset(scored)
  {
    var found := |scored|;
    forall i | found <= i < |answer|
      ensures answer[i] == DEFAULT
    {
      if answer[i] != DEFAULT {
        FewBlanks(scored, blanks, answer, i);
      }
    }
    assert answer[found..] == blanks;
    SplitCount(answer, found);
    Cancel(multiset(answer[..found]), multiset(scored), multiset(blanks));
  }

  /** Before an entry other than a blank there is no blank, and the places behind it must hold them all. */
  lemma {:induction false} FewBlanks(scored: seq<Neighbour>, blanks: seq<Neighbour>, answer: seq<Neighbour>, i: nat)
    requires multiset(answer) == multiset(scored) + multiset(blanks) && SortedBy(answer, Less) && i < |answer|
    requires |answer| == |scored| + |blanks| && forall j :: 0 <= j < |blanks| ==> blanks[j] == DEFAULT
    requires forall j :: 0 <= j < |scored| ==> !Less(DEFAULT, scored[j])
    requires answer[i] != DEFAULT
    ensures i < |scored|
  {
    CountBlanks(blanks);
    CountAtMost(answer[i + 1..], DEFAULT);
    SplitCount(answer, i + 1);
    assert answer[i] in multiset(answer) && answer[i] !in multiset(blanks);
    assert answer[i] in scored && Less(answer[i], DEFAULT);
    forall j | 0 <= j <= i
      ensures answer[j] != DEFAULT
    {
      assert j == i || !Less(answer[i], answer[j]);
    }
    assert DEFAULT !in multiset(answer[..i + 1]);
    assert multiset(answer)[DEFAULT] == multiset(scored)[DEFAULT] + |blanks|;
  }

  /** Neighbours in the first places of a sorted answer do not sort behind the blanks that follow. */
  lemma {:induction false} NothingBehind(scored: seq<Neighbour>, blanks: seq<Neighbour>, answer: seq<Neighbour>)
    requires multiset(answer) == multiset(scored) + multiset(blanks) && SortedBy(answer, Less)
    requires |answer| == |scored| + |blanks| && forall i :: 0 <= i < |blanks| ==> blanks[i] == DEFAULT
    requires blanks != [] && multiset(answer[..|scored|]) == multiset(scored)
    ensures forall j :: 0 <= j < |scored| ==> !Less(DEFAULT, scored[j])
  {
    var found := |scored|;
    SplitCount(answer, found);
    assert multiset(answer[found..]) + multiset(scored) == multiset(answer) == multiset(blanks) + multiset(scored);
    Cancel(multiset(answer[found..]), multiset(blanks), multiset(scored));
    assert answer[found..][0] in multiset(answer[found..]);
    assert answer[found] in blanks;
    forall j | 0 <= j < |scored|
      ensures !Less(DEFAULT, scored[j])
    {
      assert scored[j] in multiset(answer[..found]);
      var i :| 0 <= i < found && answer[i] == scored[j];
    }
  }

  lemma {:induction false} Cancel(a: multiset<Neighbour>, b: multiset<Neighbour>, c: multiset<Neighbour>)
    requires a + c == b + c
    ensures a == b
  {
    assert a == (a + c) - c && b == (b + c) - c;
  }

  lemma {:induction false} SplitCount(s: seq<Neighbour>, i: nat)
    requires i <= |s|
    ensures multiset(s) == multiset(s[..i]) + multiset(s[i..])
  {
    assert s == s[..i] + s[i..];
  }

  lemma {:induction false} CountBlanks(blanks: seq<Neighbour>)
    requires forall i :: 0 <= i < |blanks| ==> blanks[i] == DEFAULT
    ensures multiset(blanks)[DEFAULT] == |blanks|
  {
    if blanks != [] {
      var n := |blanks| - 1;
      CountBlanks(blanks[..n]);
      assert blanks == blanks[..n] + [DEFAULT];
    }
  }

  lemma {:induction false} CountAtMost(s: seq<Neighbour>, x: Neighbour)
    ensures multiset(s)[x] <= |s|
  {
    if s != [] {
      var n := |s| - 1;
      CountAtMost(s[..n], x);
      assert s == s[..n] + [s[n]];
    }
  }

  /**
   With distances of at least 0, a short answer keeps its neighbours in front only if it has none but point
   0 at 0.
   */
  lemma {:induction false} ShortAnswer(score: int -> real, gathered: seq<int>, k: nat, answer: seq<Neighbour>)
    requires multiset(answer) == multiset(Padded(score, gathered, k)) && SortedBy(answer, Less)
    requires forall p :: p in gathered ==> p >= 0 && score(p) >= 0.0
    ensures |answer| == k
    ensures multiset(answer[..Min(k, |gathered|)]) == multiset(Scored(score, gathered[..Min(k, |gathered|)])) <==>
      k <= |gathered| || forall p :: p in gathered ==> p == 0 && score(p) == 0.0
  {
    BlanksStayLast(score, gathered, k, answer);
    assert forall p :: p in gathered ==> (BehindBlank(score, p) <==> p != 0 || score(p) != 0.0);
  }

  /** One point at distance 1, two asked for: the reranked answer begins with the blank entry. */
  lemma {:induction false} BlankInFront(answer: seq<Neighbour>)
    requires multiset(answer) == multiset(Padded(_ => 1.0, [7], 2)) && SortedBy(answer, Less)
    ensures answer == [DEFAULT, Neighbour(1.0, 7)]
  {
    var padded := Padded(_ => 1.0, [7], 2);
    assert padded == [Neighbour(1.0, 7), DEFAULT];
    assert |answer| == |multiset(answer)| == |multiset(padded)| == 2;
    assert answer == [answer[0], answer[1]];
    assert answer[0] in multiset(answer) && answer[1] in multiset(answer);
    assert !Less(answer[1], answer[0]);
    assert multiset(answer) == multiset{answer[0], answer[1]};
    assert multiset(answer)[DEFAULT] == 1;
  }

  class MultiSearcher {
    const merger: OrderedListsMerger
    const cellEdges: Multitable<int>
    const multiindex: seq<Record>
    const score: int -> real
    const doRerank: bool
    ghost const ranks: seq<int>  // cell of every indexed point
    var foundNeighboursCount: int

    /** The searcher holds the index that FillMultiIndex leaves for these points. */
    constructor (m: OrderedListsMerger, edges: Multitable<int>, index: seq<Record>,
                 score: int -> real, rerank: bool, ghost quantizations: seq<seq<int>>)
      requires edges.Shaped() && GoodQuantizations(edges.dimensions, quantizations)
      requires var ranks := Ranks(edges.dimensions, quantizations);
        && (forall g :: 0 <= g < |edges.table| ==> edges.table[g] == Edge(ranks, g))
        && index == Records(Layout(ranks, |edges.table|))
      requires m.yieldedItems != edges
      ensures Valid() && merger == m && cellEdges == edges && this.score == score && doRerank == rerank
      ensures ranks == Ranks(edges.dimensions, quantizations)
    {
      merger, cellEdges, multiindex := m, edges, index;
      this.score, doRerank := score, rerank;
      foundNeighboursCount := 0;
      ranks := Ranks(edges.dimensions, quantizations);
    }

    ghost predicate Valid()
      reads cellEdges
    {
      && cellEdges.Shaped() && cellEdges.dimensions != [] && cellEdges != merger.yieldedItems
      && (forall g :: 0 <= g < |cellEdges.table| ==> cellEdges.table[g] == Edge(ranks, g))
      && multiindex == Records(Layout(ranks, |cellEdges.table|))
    }

    method GetCellEdgesInMultiIndexArray(coordinates: seq<int>) returns (start: int, finish: int)
      requires Valid() && InGrid(cellEdges.dimensions, coordinates)
      ensures 0 <= start <= finish <= |multiindex|
      ensures multiindex[start..finish] == Records(Bucket(ranks, Offset(cellEdges.dimensions, coordinates)))
    {
      var global := cellEdges.GetCellGlobalIndex(coordinates);
      OffsetBounds(cellEdges.dimensions, coordinates);
      var g := global.value;
      LayoutSlice(ranks, g, |cellEdges.table|);
      start := cellEdges.table[g];
      if g + 1 == |cellEdges.table| {
        finish := |multiindex|;
      } else {
        finish := cellEdges.table[g + 1];
      }
      assert multiindex[start..finish] == Records(Layout(ranks, |cellEdges.table|)[start..finish]);
    }

    ghost predicate Searching(neighbours: array<Neighbour>)
      reads this, cellEdges, merger, merger.yieldedItems, neighbours
    {
      && Valid() && merger.Valid() && ShortLists(cellEdges.dimensions, merger.lists)
      && Collected(score, Gathered(cellEdges.dimensions, ranks, merger.lists, merger.history),
                   neighbours[..], foundNeighboursCount)
    }

    /** One more cell: its records follow those gathered before. */
    method TraverseNextMultiIndexCell(neighbours: array<Neighbour>) returns (more: bool)
      requires Searching(neighbours)
      modifies `foundNeighboursCount, merger`heap, merger`history, merger.yieldedItems`table, neighbours
      ensures Searching(neighbours) && merger.lists == old(merger.lists)
      ensures more ==> |merger.history| == |old(merger.history)| + 1
      ensures !more ==> merger.history == old(merger.history)
      ensures !more ==> forall c :: InGrid(Widths(merger.lists), c) ==> c in merger.history
    {
      ghost var before := Gathered(cellEdges.dimensions, ranks, merger.lists, merger.history);
      var coordinates: seq<int>;
      more, coordinates := NextCell();
      if more {
        AppendCell(neighbours, coordinates, before);
      }
    }

    /** The coordinates of the next cell in merge order. */
    method NextCell() returns (more: bool, coordinates: seq<int>)
      requires Valid() && merger.Valid() && ShortLists(cellEdges.dimensions, merger.lists)
      modifies merger`heap, merger`history, merger.yieldedItems`table
      ensures Valid() && merger.Valid() && merger.lists == old(merger.lists)
      ensures !more ==> merger.history == old(merger.history)
      ensures !more ==> forall c :: InGrid(Widths(merger.lists), c) ==> c in merger.history
      ensures more ==> |merger.history| == |old(merger.history)| + 1 && InGrid(cellEdges.dimensions, coordinates)
      ensures more ==> var cell := merger.history[|merger.history| - 1];
        && Picks(merger.lists, coordinates, cell) && merger.history == old(merger.history) + [cell]
      ensures more ==> (Gathered(cellEdges.dimensions, ranks, merger.lists, merger.history) ==
        old(Gathered(cellEdges.dimensions, ranks, merger.lists, merger.history)) + Bucket(ranks,
            Offset(cellEdges.dimensions, coordinates)))
    {
      var inner := new int[|merger.lists|];
      var lists := merger.lists;
      ghost var dims, before := cellEdges.dimensions, merger.history;
      coordinates := [];
      more := merger.GetNextMergedItemIndices(inner);
      if more {
        GatheredNext(dims, ranks, lists, before, inner[..]);
        CoordinatesInGrid(dims, lists, inner[..]);
        coordinates := Coordinates(lists, inner[..]);
      }
    }

    /** The records of one cell, unless it is empty. */
    method AppendCell(neighbours: array<Neighbour>, coordinates: seq<int>, ghost gathered: seq<int>)
      requires Valid() && InGrid(cellEdges.dimensions, coordinates)
      requires Collected(score, gathered, neighbours[..], foundNeighboursCount)
      modifies `foundNeighboursCount, neighbours
      ensures Collected(score, gathered + Bucket(ranks, Offset(cellEdges.dimensions, coordinates)),
                        neighbours[..], foundNeighboursCount)
    {
      var start, finish := GetCellEdgesInMultiIndexArray(coordinates);
      ghost var points := Bucket(ranks, Offset(cellEdges.dimensions, coordinates));
      if start >= finish {
        assert points == [] && gathered + points == gathered;
        return;
      }
      AppendRecords(neighbours, start, finish, gathered, points);
    }

    /** The copy loop over the records of one cell, cut off at the last free slot. */
    method AppendRecords(neighbours: array<Neighbour>, start: int, finish: int, ghost gathered: seq<int>,
                         ghost points: seq<int>)
      requires 0 <= start < finish <= |multiindex|
      requires multiindex[start..finish] == Records(points)
      requires Collected(score, gathered, neighbours[..], foundNeighboursCount)
      modifies `foundNeighboursCount, neighbours
      ensures Collected(score, gathered + points, neighbours[..], foundNeighboursCount)
    {
      ghost var all, found0 := gathered + points, foundNeighboursCount;
      var last := Min(finish, start + neighbours.Length - foundNeighboursCount);
      var i := start;
      while i < last
        invariant start <= i <= last
        invariant foundNeighboursCount == found0 + (i - start)
        invariant neighbours[..foundNeighboursCount] == Scored(score, all[..foundNeighboursCount])
        invariant forall j :: foundNeighboursCount <= j < neighbours.Length ==> neighbours[j] == DEFAULT
      {
        assert multiindex[i] == multiindex[start..finish][i - start] == Record(points[i - start]);
        assert all[foundNeighboursCount] == points[i - start];
        neighbours[foundNeighboursCount] := Neighbour(score(multiindex[i].pid), multiindex[i].pid);
        foundNeighboursCount := foundNeighboursCount + 1;
        i := i + 1;
      }
    }

    /** The traversal loop: it stops at k neighbours or when no cell is left. */
    method Traverse(neighbours: array<Neighbour>)
      requires Searching(neighbours) && merger.history == []
      modifies `foundNeighboursCount, merger`heap, merger`history, merger.yieldedItems`table, neighbours
      ensures Searching(neighbours) && merger.lists == old(merger.lists)
      ensures foundNeighboursCount < neighbours.Length ==>
        forall c :: InGrid(Widths(merger.lists), c) ==> c in merger.history
    {
      ghost var lists := merger.lists;
      var traverseNextCell := true;
      while foundNeighboursCount < neighbours.Length && traverseNextCell
        invariant Searching(neighbours) && merger.lists == lists
        invariant !traverseNextCell ==> forall c :: InGrid(Widths(lists), c) ==> c in merger.history
        decreases Product(Widths(lists)) - |merger.history| + if traverseNextCell then 1 else 0
      {
        HistoryBounded(lists, merger.history);
        traverseNextCell := TraverseNextMultiIndexCell(neighbours);
        HistoryBounded(lists, merger.history);
      }
    }

    /** std::sort over the whole answer, in place. */
    method Rerank(neighbours: array<Neighbour>)
      modifies neighbours
      ensures multiset(neighbours[..]) == multiset(old(neighbours[..])) && SortedBy(neighbours[..], Less)
    {
      LessIsStrictWeak();
      SortCorrect(neighbours[..], Less);
      var sorted := Sort(neighbours[..], Less);
      forall i | 0 <= i < neighbours.Length {
        neighbours[i] := sorted[i];
      }
      assert neighbours[..] == sorted;
    }

    /**
     The answer to a query: the first k points of the traversed cells, cells in
     order of their coordinate sums and points in id order, no point twice.  No
     cell left out has a smaller sum than one traversed, and the answer is short
     of k only when every available point is in it.
     */
    method GetNearestNeighbours(k: int, shortLists: Lists)
      returns (neighbours: array<Neighbour>, ghost gathered: seq<int>)
      requires k > 0 && Valid() && ShortLists(cellEdges.dimensions, shortLists)
      requires merger.yieldedItems.Shaped() && merger.yieldedItems.dimensions == Widths(shortLists)
      modifies `foundNeighboursCount, merger, merger.yieldedItems`table
      ensures neighbours.Length == k && foundNeighboursCount == Min(k, |gathered|)
      ensures !doRerank ==> neighbours[..] == Padded(score, gathered, k)
      ensures doRerank ==>
        multiset(neighbours[..]) == multiset(Padded(score, gathered, k)) && SortedBy(neighbours[..], Less)
      ensures doRerank ==>
        (multiset(neighbours[..foundNeighboursCount]) == multiset(Scored(score, gathered[..foundNeighboursCount])) <==>
         k <= |gathered| || forall p :: p in gathered ==> score(p) < 0.0 || (score(p) == 0.0 && p <= 0))
      ensures !doRerank ==> forall i :: 0 <= i < k ==>
        neighbours[i] == if i < |gathered| then Neighbour(score(gathered[i]), gathered[i]) else Neighbour(0.0, 0)
      ensures doRerank ==> forall i, j :: 0 <= i < j < k ==>
        (neighbours[i].distance < neighbours[j].distance
         || (neighbours[i].distance == neighbours[j].distance && neighbours[i].pid <= neighbours[j].pid))
      ensures merger.lists == shortLists && merger.Valid() && HistoryFirst(shortLists, merger.history)
      ensures gathered == Gathered(cellEdges.dimensions, ranks, shortLists, merger.history) && Distinct(gathered)
      ensures foundNeighboursCount < k ==>
        forall p :: p in gathered <==> Available(cellEdges.dimensions, ranks, shortLists, p)
    {
      neighbours := new Neighbour[k](_ => DEFAULT);
      merger.SetLists(shortLists);
      foundNeighboursCount := 0;
      assert Searching(neighbours);
      Traverse(neighbours);
      gathered := Gathered(cellEdges.dimensions, ranks, shortLists, merger.history);
      GatheredMembers(cellEdges.dimensions, ranks, shortLists, merger.history);
      CollectedIsPadded(score, gathered, neighbours[..], foundNeighboursCount);
      PaddedAt(score, gathered, k);
      hide Padded, Scored, SortedBy, GoodHistory, Distinct, PointsOf, ShortLists;
      if doRerank {
        Rerank(neighbours);
        SortedPairs(neighbours[..]);
        BlanksStayLast(score, gathered, k, neighbours[..]);
      }
    }
  }
}
