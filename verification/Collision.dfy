/**
 Collision counting over several trees. Each tree has a window of entries already scanned;
 it grows by whole segments, nearest first, and an object is counted once per tree.
 */
module Collisions {
  import opened Wrappers
  import opened DistinctSeqs
  import opened BNodes
  import opened BTrees
  import opened PageCursors

  /** The distance of a key to the query key. */
  function Gap(key: real, q: real): (d: real)
    ensures d >= 0.0 && (d == key - q || d == q - key)
  {
    if key >= q then key - q else q - key
  }

  /** The window [lo, hi) of a tree contains a segment. */
  ghost predicate Scanned(t: Leaves, lo: int, hi: int, f: int, p: int)
    requires IsSeg(t.cuts, f, p)
  {
    lo <= SegStart(t.cuts, f, p) < hi
  }

  /** The first key of a segment, as a distance. */
  ghost function SegGap(t: Leaves, q: real, f: int, p: int): real
    requires IsSeg(t.cuts, f, p) && SegStart(t.cuts, f, p) < |t.table|
  {
    Gap(t.table[SegStart(t.cuts, f, p)].key, q)
  }

  ghost predicate InTable(t: Leaves) {
    forall f, p :: IsSeg(t.cuts, f, p) ==> SegStart(t.cuts, f, p) < |t.table|
  }

  /** Scanned segments have distances below w. */
  ghost predicate ScannedBelow(t: Leaves, q: real, lo: int, hi: int, w: real)
    requires InTable(t)
  {
    forall f, p :: IsSeg(t.cuts, f, p) && Scanned(t, lo, hi, f, p) ==> SegGap(t, q, f, p) < w
  }

  /** All other segments have distances of w or more. */
  ghost predicate OthersFrom(t: Leaves, q: real, lo: int, hi: int, w: real)
    requires InTable(t)
  {
    forall f, p :: IsSeg(t.cuts, f, p) && !Scanned(t, lo, hi, f, p) ==> SegGap(t, q, f, p) >= w
  }

  lemma {:induction false} GoodInTable(pages: seq<Page>, t: Leaves, capacity: nat)
    requires Good(pages, t, capacity)
    ensures InTable(t)
  {
    forall f, p | IsSeg(t.cuts, f, p)
      ensures SegStart(t.cuts, f, p) < |t.table|
    {
      SegSize(t.cuts, f, p);
      LeafOfBlock(pages, t, capacity, f);
    }
  }

  /** Segment (f, p) is the only one that starts from its start up to its end. */
  lemma {:induction false} OnlySegment(pages: seq<Page>, t: Leaves, capacity: nat, f: int, p: int, g: int, r: int)
    requires Good(pages, t, capacity) && IsSeg(t.cuts, f, p) && IsSeg(t.cuts, g, r)
    requires SegStart(t.cuts, f, p) <= SegStart(t.cuts, g, r) < SegEnd(t.cuts, f, p)
    ensures SegStart(t.cuts, g, r) == SegStart(t.cuts, f, p)
  {
    if SegStart(t.cuts, f, p) < SegStart(t.cuts, g, r) {
      SegOrder(t.cuts, capacity, f, p, g, r);
    }
  }

  /** The cursors of a tree and its window. */
  ghost predicate CursorOk(pages: seq<Page>, t: Leaves, q: real, lptr: PageBuffer, rptr: PageBuffer, lo: int, hi: int) {
    && 0 <= lo <= hi <= |t.table| && LeftAt(pages, t, lptr, lo) && RightAt(pages, t, rptr, hi)
    && (lptr.size != -1 ==> KeyBelow(t, lptr, q)) && (hi < |t.table| ==> t.table[hi].key > q)
  }

  /** The segment of the left cursor joins the window; it is the nearest one if the right cursor is no nearer. */
  lemma {:induction false} TakeLeft(pages: seq<Page>, t: Leaves, capacity: nat, q: real, lptr: PageBuffer,
                                    rptr: PageBuffer, lo: int, hi: int,
                                    w: real, v: real)
    requires Good(pages, t, capacity) && SortedTable(t.table) && InTable(t)
    requires CursorOk(pages, t, q, lptr, rptr, lo, hi) && lptr.size != -1
    requires hi < |t.table| ==> q - t.table[Start(t, lptr)].key <= t.table[hi].key - q
    requires ScannedBelow(t, q, lo, hi, w) && q - t.table[Start(t, lptr)].key < w && OthersFrom(t, q, lo, hi, v)
    ensures ScannedBelow(t, q, Start(t, lptr), hi, w) && OthersFrom(t, q, Start(t, lptr), hi, v)
    ensures OthersFrom(t, q, lo, hi, Gap(t.table[Start(t, lptr)].key, q))
  {
    var f, p, gs := lptr.block - t.start, lptr.indexPos, Start(t, lptr);
    SegSize(t.cuts, f, p);
    forall g, r | IsSeg(t.cuts, g, r) && Scanned(t, gs, hi, g, r)
      ensures SegGap(t, q, g, r) < w
    {
      if SegStart(t.cuts, g, r) < lo {
        OnlySegment(pages, t, capacity, f, p, g, r);
      } else {
        assert Scanned(t, lo, hi, g, r);
      }
    }
    forall g, r | IsSeg(t.cuts, g, r) && !Scanned(t, gs, hi, g, r)
      ensures SegGap(t, q, g, r) >= v
    {
      assert !Scanned(t, lo, hi, g, r);
    }
    forall g, r | IsSeg(t.cuts, g, r) && !Scanned(t, lo, hi, g, r)
      ensures SegGap(t, q, g, r) >= Gap(t.table[gs].key, q)
    {
      if gs < SegStart(t.cuts, g, r) < lo {
        OnlySegment(pages, t, capacity, f, p, g, r);
      }
    }
  }

  /** The segment of the right cursor joins the window; it is the nearest one if the left cursor is farther. */
  lemma {:induction false} TakeRight(pages: seq<Page>, t: Leaves, capacity: nat, q: real, lptr: PageBuffer,
                                     rptr: PageBuffer, lo: int, hi: int,
                                     w: real, v: real)
    requires Good(pages, t, capacity) && SortedTable(t.table) && InTable(t)
    requires CursorOk(pages, t, q, lptr, rptr, lo, hi) && rptr.size != -1 && hi < |t.table|
    requires lptr.size != -1 ==> q - t.table[Start(t, lptr)].key >= t.table[hi].key - q
    requires ScannedBelow(t, q, lo, hi, w) && t.table[hi].key - q < w && OthersFrom(t, q, lo, hi, v)
    ensures ScannedBelow(t, q, lo, End(t, rptr), w) && OthersFrom(t, q, lo, End(t, rptr), v)
    ensures OthersFrom(t, q, lo, hi, Gap(t.table[hi].key, q))
  {
    var f, p, ge := rptr.block - t.start, rptr.indexPos, End(t, rptr);
    SegSize(t.cuts, f, p);
    forall g, r | IsSeg(t.cuts, g, r) && Scanned(t, lo, ge, g, r)
      ensures SegGap(t, q, g, r) < w
    {
      if SegStart(t.cuts, g, r) >= hi {
        OnlySegment(pages, t, capacity, f, p, g, r);
      } else {
        assert Scanned(t, lo, hi, g, r);
      }
    }
    forall g, r | IsSeg(t.cuts, g, r) && !Scanned(t, lo, ge, g, r)
      ensures SegGap(t, q, g, r) >= v
    {
      assert !Scanned(t, lo, hi, g, r);
    }
    forall g, r | IsSeg(t.cuts, g, r) && !Scanned(t, lo, hi, g, r)
      ensures SegGap(t, q, g, r) >= Gap(t.table[hi].key, q)
    {
      if SegStart(t.cuts, g, r) < lo {
        BeforeLeft(pages, t, capacity, lptr, lo, g, r);
      }
    }
  }

  /** Segments before the window start no later than the one of the left cursor. */
  lemma {:induction false} BeforeLeft(pages: seq<Page>, t: Leaves, capacity: nat, lptr: PageBuffer, lo: int, g: int,
                                      r: int)
    requires Good(pages, t, capacity) && LeftAt(pages, t, lptr, lo) && IsSeg(t.cuts, g, r)
    requires SegStart(t.cuts, g, r) < lo
    ensures lptr.size != -1 && SegStart(t.cuts, g, r) <= Start(t, lptr)
  {
    SegSize(t.cuts, g, r);
    if SegStart(t.cuts, g, r) > Start(t, lptr) {
      OnlySegment(pages, t, capacity, lptr.block - t.start, lptr.indexPos, g, r);
    }
  }

  /** When neither cursor is within w, no segment outside the window is. */
  lemma {:induction false} NoneWithin(pages: seq<Page>, t: Leaves, capacity: nat, q: real, lptr: PageBuffer,
                                      rptr: PageBuffer, lo: int,
                                      hi: int, w: real)
    requires Good(pages, t, capacity) && SortedTable(t.table) && InTable(t) && CursorOk(pages, t, q, lptr, rptr, lo, hi)
    requires lptr.size != -1 ==> q - t.table[Start(t, lptr)].key >= w
    requires hi < |t.table| ==> t.table[hi].key - q >= w
    ensures OthersFrom(t, q, lo, hi, w)
  {
    forall g, r | IsSeg(t.cuts, g, r) && !Scanned(t, lo, hi, g, r)
      ensures SegGap(t, q, g, r) >= w
    {
      if SegStart(t.cuts, g, r) < lo {
        BeforeLeft(pages, t, capacity, lptr, lo, g, r);
      }
    }
  }

  /** The distances of the segments at the cursors. */
  lemma {:induction false} CursorGaps(pages: seq<Page>, t: Leaves, capacity: nat, q: real, lptr: PageBuffer,
                                      rptr: PageBuffer, lo: int, hi: int)
    requires Good(pages, t, capacity) && CursorOk(pages, t, q, lptr, rptr, lo, hi)
    ensures lptr.size != -1 ==> lptr.leaf.Some? && 0 <= lptr.indexPos < |lptr.leaf.value.keys|
    ensures lptr.size != -1 ==> ProjDist(lptr, q) == q - t.table[Start(t, lptr)].key
    ensures rptr.size != -1 ==> rptr.leaf.Some? && 0 <= rptr.indexPos < |rptr.leaf.value.keys| && hi < |t.table|
    ensures rptr.size != -1 ==> ProjDist(rptr, q) == t.table[hi].key - q
    ensures rptr.size == -1 ==> hi == |t.table|
  {
    if lptr.size != -1 {
      SparseKey(pages, t, capacity, lptr.block - t.start, lptr.indexPos);
    }
    if rptr.size != -1 {
      SparseKey(pages, t, capacity, rptr.block - t.start, rptr.indexPos);
    }
  }

  /** Object id is among the entries of a window. */
  ghost predicate Seen(table: seq<Entry>, lo: int, hi: int, id: int) {
    exists x :: 0 <= x < |table| && lo <= x < hi && table[x].id == id
  }

  /** The number of trees whose window contains the object. */
  ghost function Collided(tables: seq<seq<Entry>>, los: seq<int>, his: seq<int>, id: int): nat
    requires |tables| == |los| == |his|
  {
    if tables == [] then 0
    else
      var k := |tables| - 1;
      Collided(tables[..k], los[..k], his[..k], id) + if Seen(tables[k], los[k], his[k], id) then 1 else 0
  }

  /** Only tree i counts differently. */
  lemma {:induction false} CollidedUpdate(tables: seq<seq<Entry>>, los: seq<int>, his: seq<int>, los': seq<int>,
                                          his': seq<int>, i: nat, id: int)
    requires |tables| == |los| == |his| == |los'| == |his'| && i < |tables|
    requires forall j :: 0 <= j < |tables| && j != i ==> los'[j] == los[j] && his'[j] == his[j]
    ensures Collided(tables, los', his', id) - Collided(tables, los, his, id) ==
      (if Seen(tables[i], los'[i], his'[i], id) then 1 else 0) - (if Seen(tables[i], los[i], his[i], id) then 1 else 0)
  {
    var k := |tables| - 1;
    if i < k {
      CollidedUpdate(tables[..k], los[..k], his[..k], los'[..k], his'[..k], i, id);
    } else {
      assert los'[..k] == los[..k] && his'[..k] == his[..k];
    }
  }

  /** No object stands twice in a tree. */
  ghost predicate Objects(table: seq<Entry>, n: nat) {
    |table| == n && Distinct(Ids(table)) && forall x :: 0 <= x < |table| ==> 0 <= table[x].id < n
  }

  /** One more entry at either end of a window is one more object seen. */
  lemma {:induction false} SeenMore(table: seq<Entry>, n: nat, lo: int, hi: int, x: int, lo': int, hi': int, id: int)
    requires Objects(table, n) && 0 <= lo <= hi <= n && 0 <= x < n
    requires (x == lo - 1 && lo' == x && hi' == hi) || (x == hi && lo' == lo && hi' == hi + 1)
    ensures Seen(table, lo', hi', id) <==> Seen(table, lo, hi, id) || id == table[x].id
    ensures !Seen(table, lo, hi, table[x].id)
  {
    forall y | 0 <= y < |table| && lo <= y < hi
      ensures table[y].id != table[x].id
    {
      assert Ids(table)[y] != Ids(table)[x];
    }
    if Seen(table, lo, hi, id) {
      var y :| 0 <= y < |table| && lo <= y < hi && table[y].id == id;
      assert lo' <= y < hi';
    }
  }

  /** The entries in all windows. */
  ghost function Total(los: seq<int>, his: seq<int>): int
    requires |los| == |his|
  {
    if los == [] then 0 else var k := |los| - 1; Total(los[..k], his[..k]) + his[k] - los[k]
  }

  lemma {:induction false} TotalUpdate(los: seq<int>, his: seq<int>, los': seq<int>, his': seq<int>, i: nat)
    requires |los| == |his| == |los'| == |his'| && i < |los|
    requires forall j :: 0 <= j < |los| && j != i ==> los'[j] == los[j] && his'[j] == his[j]
    ensures Total(los', his') - Total(los, his) == (his'[i] - los'[i]) - (his[i] - los[i])
  {
    var k := |los| - 1;
    if i < k {
      TotalUpdate(los[..k], his[..k], los'[..k], his'[..k], i);
    } else {
      assert los'[..k] == los[..k] && his'[..k] == his[..k];
    }
  }

  lemma {:induction false} TotalBound(los: seq<int>, his: seq<int>, n: nat)
    requires |los| == |his| && forall j :: 0 <= j < |los| ==> 0 <= los[j] <= his[j] <= n
    ensures 0 <= Total(los, his) <= n * |los|
  {
    if los != [] {
      var k := |los| - 1;
      TotalBound(los[..k], his[..k], n);
    }
  }

  /** Windows inside tables of n objects each. */
  ghost predicate Windows(tables: seq<seq<Entry>>, los: seq<int>, his: seq<int>, n: nat) {
    && |tables| == |los| == |his|
    && forall i :: 0 <= i < |tables| ==> Objects(tables[i], n) && 0 <= los[i] <= his[i] <= n
  }

  /** An object is counted once for every tree that has scanned it. */
  ghost predicate Counts(frequency: seq<nat>, tables: seq<seq<Entry>>, los: seq<int>, his: seq<int>)
    requires |tables| == |los| == |his|
  {
    forall id :: 0 <= id < |frequency| ==> frequency[id] == Collided(tables, los, his, id)
  }

  /** The objects whose distance was computed: those counted more than l times, each once. */
  ghost predicate Verified(frequency: seq<nat>, isChecked: seq<bool>, verified: seq<int>, l: int) {
    && |frequency| == |isChecked| && Distinct(verified)
    && (forall id :: 0 <= id < |frequency| ==> (isChecked[id] <==> frequency[id] > 0 && frequency[id] > l))
    && (forall id :: id in verified <==> 0 <= id < |isChecked| && isChecked[id])
  }

  /** One more entry of tree i: its object, and no other, is counted once more. */
  lemma {:induction false} CountsNext(frequency: seq<nat>, tables: seq<seq<Entry>>, los: seq<int>, his: seq<int>,
                                      n: nat, i: nat, x: int,
                                      los': seq<int>, his': seq<int>)
    requires Windows(tables, los, his, n) && Counts(frequency, tables, los, his) && |frequency| == n
    requires i < |tables| && 0 <= x < n
    requires (x == los[i] - 1 && los' == los[i := x] && his' == his)
        || (x == his[i] && los' == los && his' == his[i := x + 1])
    ensures Windows(tables, los', his', n) && 0 <= tables[i][x].id < n
    ensures Counts(frequency[tables[i][x].id := frequency[tables[i][x].id] + 1], tables, los', his')
    ensures Total(los', his') == Total(los, his) + 1
  {
    var next := frequency[tables[i][x].id := frequency[tables[i][x].id] + 1];
    forall id | 0 <= id < n
      ensures next[id] == Collided(tables, los', his', id)
    {
      SeenMore(tables[i], n, los[i], his[i], x, los'[i], his'[i], id);
      CollidedUpdate(tables, los, his, los', his', i, id);
    }
    TotalUpdate(los, his, los', his', i);
  }

  /** Leaf and position of a segment. */
  type Segment = (int, int)

  /** Segments in the order they were scanned: none twice, and none nearer than one before it. */
  ghost predicate Trail(t: Leaves, q: real, trail: seq<Segment>)
    requires InTable(t)
  {
    && Distinct(trail) && (forall k :: 0 <= k < |trail| ==> IsSeg(t.cuts, trail[k].0, trail[k].1))
    && forall j, k :: 0 <= j < k < |trail| ==>
         SegGap(t, q, trail[j].0, trail[j].1) <= SegGap(t, q, trail[k].0, trail[k].1)
  }

  /** The distance of the segment scanned last. */
  ghost function LastGap(t: Leaves, q: real, trail: seq<Segment>): real
    requires InTable(t) && Trail(t, q, trail)
  {
    if trail == [] then 0.0 else var s := trail[|trail| - 1]; SegGap(t, q, s.0, s.1)
  }

  /** The trail leads through the segments of the window, and no segment left is nearer than its last one. */
  ghost predicate TrailOf(t: Leaves, q: real, lo: int, hi: int, trail: seq<Segment>)
    requires InTable(t)
  {
    && Trail(t, q, trail) && OthersFrom(t, q, lo, hi, LastGap(t, q, trail))
    && forall f, p :: IsSeg(t.cuts, f, p) ==> (Scanned(t, lo, hi, f, p) <==> (f, p) in trail)
  }

  /** One segment more in the window. */
  ghost predicate OneMore(t: Leaves, lo: int, hi: int, lo': int, hi': int, f: int, p: int) {
    && IsSeg(t.cuts, f, p) && !Scanned(t, lo, hi, f, p)
    && forall g, r :: IsSeg(t.cuts, g, r) ==>
         (Scanned(t, lo', hi', g, r) <==> Scanned(t, lo, hi, g, r) || (g == f && r == p))
  }

  /** A nearest segment of those left continues the trail. */
  lemma {:induction false} TrailNext(t: Leaves, q: real, lo: int, hi: int, trail: seq<Segment>, lo': int, hi': int,
                                     f: int, p: int)
    requires InTable(t) && TrailOf(t, q, lo, hi, trail) && OneMore(t, lo, hi, lo', hi', f, p)
    requires OthersFrom(t, q, lo, hi, SegGap(t, q, f, p))
    ensures TrailOf(t, q, lo', hi', trail + [(f, p)])
  {
    var next := trail + [(f, p)];
    assert (f, p) !in trail;
    assert LastGap(t, q, trail) <= SegGap(t, q, f, p);
    forall j, k | 0 <= j < k < |next|
      ensures SegGap(t, q, next[j].0, next[j].1) <= SegGap(t, q, next[k].0, next[k].1)
    {
      assert next[j] == trail[j] && (k == |trail| || next[k] == trail[k]);
    }
    assert Trail(t, q, next);
    forall g, r | IsSeg(t.cuts, g, r)
      ensures Scanned(t, lo', hi', g, r) <==> (g, r) in next
      ensures !Scanned(t, lo', hi', g, r) ==> SegGap(t, q, g, r) >= LastGap(t, q, next)
    {
      assert (g, r) in next <==> (g, r) in trail || (g == f && r == p);
    }
  }

  /** The left cursor adds exactly its segment. */
  lemma {:induction false} LeftOneMore(pages: seq<Page>, t: Leaves, capacity: nat, lptr: PageBuffer, lo: int, hi: int)
    requires Good(pages, t, capacity) && LeftAt(pages, t, lptr, lo) && lptr.size != -1 && lo <= hi
    ensures OneMore(t, lo, hi, Start(t, lptr), hi, lptr.block - t.start, lptr.indexPos)
  {
    var f, p := lptr.block - t.start, lptr.indexPos;
    SegSize(t.cuts, f, p);
    forall g, r | IsSeg(t.cuts, g, r) && Start(t, lptr) <= SegStart(t.cuts, g, r) < lo
      ensures g == f && r == p
    {
      OnlySegment(pages, t, capacity, f, p, g, r);
      SameSegment(t.cuts, capacity, f, p, g, r);
    }
  }

  /** The right cursor adds exactly its segment. */
  lemma {:induction false} RightOneMore(pages: seq<Page>, t: Leaves, capacity: nat, rptr: PageBuffer, lo: int, hi: int)
    requires Good(pages, t, capacity) && RightAt(pages, t, rptr, hi) && rptr.size != -1 && lo <= hi
    ensures OneMore(t, lo, hi, lo, End(t, rptr), rptr.block - t.start, rptr.indexPos)
  {
    var f, p := rptr.block - t.start, rptr.indexPos;
    SegSize(t.cuts, f, p);
    forall g, r | IsSeg(t.cuts, g, r) && hi <= SegStart(t.cuts, g, r) < End(t, rptr)
      ensures g == f && r == p
    {
      OnlySegment(pages, t, capacity, f, p, g, r);
      SameSegment(t.cuts, capacity, f, p, g, r);
    }
  }

  /** The trail of one tree; once the search has stopped, its last segment may be scanned in part only. */
  ghost predicate TrailAt(t: Leaves, q: real, lo: int, hi: int, trail: seq<Segment>, again: bool) {
    InTable(t) && Trail(t, q, trail) && (again ==> TrailOf(t, q, lo, hi, trail))
  }

  ghost predicate AllTrails(ts: seq<Leaves>, qs: seq<real>, los: seq<int>, his: seq<int>, trails: seq<seq<Segment>>,
                            again: bool)
  {
    && |ts| == |qs| == |los| == |his| == |trails|
    && forall i :: 0 <= i < |ts| ==> TrailAt(ts[i], qs[i], los[i], his[i], trails[i], again)
  }

  /** Tree i has scanned one segment more, or some of it. */
  lemma {:induction false} TrailsNext(ts: seq<Leaves>, qs: seq<real>, los: seq<int>, his: seq<int>,
                                      trails: seq<seq<Segment>>, i: nat, lo': int, hi': int, f: int, p: int,
                                      los': seq<int>, his': seq<int>, again: bool)
    requires AllTrails(ts, qs, los, his, trails, true) && i < |ts|
    requires OneMore(ts[i], los[i], his[i], lo', hi', f, p) && InTable(ts[i])
    requires OthersFrom(ts[i], qs[i], los[i], his[i], SegGap(ts[i], qs[i], f, p))
    requires |los'| == |his'| == |ts| && (again ==> los' == los[i := lo'] && his' == his[i := hi'])
    ensures AllTrails(ts, qs, los', his', trails[i := trails[i] + [(f, p)]], again)
  {
    assert TrailAt(ts[i], qs[i], los[i], his[i], trails[i], true);
    TrailNext(ts[i], qs[i], los[i], his[i], trails[i], lo', hi', f, p);
    forall j | 0 <= j < |ts|
      ensures TrailAt(ts[j], qs[j], los'[j], his'[j], trails[i := trails[i] + [(f, p)]][j], again)
    {
      assert TrailAt(ts[j], qs[j], los[j], his[j], trails[j], true);
    }
  }

  /** Empty windows have empty trails. */
  lemma {:induction false} NoTrails(ts: seq<Leaves>, qs: seq<real>, los: seq<int>, his: seq<int>, n: nat)
    requires |ts| == |qs| == |los| == |his| == n && forall i :: 0 <= i < n ==> InTable(ts[i]) && los[i] == his[i]
    ensures AllTrails(ts, qs, los, his, seq(n, _ => []), true)
  {
  }

  /** Tree i has scanned one segment more, and the other trees none. */
  ghost predicate OneLonger(was: seq<seq<Segment>>, now: seq<seq<Segment>>, i: nat) {
    && |now| == |was| && i < |was|
    && (forall j :: 0 <= j < |was| && j != i ==> now[j] == was[j])
    && |now[i]| == |was[i]| + 1 && now[i][..|was[i]|] == was[i]
  }

  lemma AppendedIs(was: seq<seq<Segment>>, i: nat, s: Segment)
    requires i < |was|
    ensures OneLonger(was, was[i := was[i] + [s]], i)
  {
  }

  /** Tree i has taken its step: one segment more is scanned, or the tree is done for the round. */
  ghost predicate Stepped(was: seq<seq<Segment>>, now: seq<seq<Segment>>, flags: seq<bool>, flags': seq<bool>, i: nat) {
    && i < |flags| && flags[i]
    && ((OneLonger(was, now, i) && flags' == flags) || (now == was && flags' == flags[i := false]))
  }

  /** Of the trees not done those before tree `end` have taken one step each, and the others none. */
  ghost predicate SweptTo(was: seq<seq<Segment>>, now: seq<seq<Segment>>, flags: seq<bool>, flags': seq<bool>,
                          end: nat) {
    && |was| == |now| == |flags| == |flags'| && end <= |flags|
    && (forall j :: 0 <= j < |flags| && (!flags[j] || j >= end) ==> now[j] == was[j] && flags'[j] == flags[j])
    && forall j :: 0 <= j < end && flags[j] ==> StepOf(was[j], now[j], flags'[j])
  }

  /** One segment more, or none and done. */
  ghost predicate StepOf(was: seq<Segment>, now: seq<Segment>, more: bool) {
    if more then |now| == |was| + 1 && now[..|was|] == was else now == was
  }

  lemma {:induction false} SweptNext(was: seq<seq<Segment>>, mid: seq<seq<Segment>>, now: seq<seq<Segment>>,
                                     flags: seq<bool>, mids: seq<bool>, flags': seq<bool>, end: nat)
    requires SweptTo(was, mid, flags, mids, end) && end < |flags|
    requires Stepped(mid, now, mids, flags', end) || (!mids[end] && now == mid && flags' == mids)
    ensures SweptTo(was, now, flags, flags', end + 1)
  {
  }

  /** The side a step goes to. */
  datatype Way = Left | Right | Neither

  /** One query. */
  class Query {
    const n: nat
    const l: int
    const candidates: nat
    const frequency: array<nat>
    const isChecked: array<bool>
    var distIo: nat
    var scannedId: nat
    var verified: seq<int>  // the objects whose distance was computed, in order
    var again: bool
    const trees: seq<BTree>
    const qVal: seq<real>
    const lptr: array<PageBuffer>
    const rptr: array<PageBuffer>
    const flag: array<bool>  // whether a tree may have more to scan in this round
    var flagNum: nat
    ghost const files: seq<seq<Page>>  // what the blocks of the trees hold
    ghost const ts: seq<Leaves>
    ghost const tables: seq<seq<Entry>>
    ghost var los: seq<int>
    ghost var his: seq<int>
    ghost var trails: seq<seq<Segment>>  // the segments scanned in every tree, in order

    /** The frequencies agree with the windows. */
    ghost predicate Tallied()
      reads this, frequency
    {
      && frequency.Length == n && Windows(tables, los, his, n) && Counts(frequency[..], tables, los, his)
      && scannedId == Total(los, his)
    }

    /** The frequent objects, and only they, were verified. */
    ghost predicate Checked()
      reads this, frequency, isChecked
    {
      && Verified(frequency[..], isChecked[..], verified, l)
      && distIo == |verified| <= candidates && (again <==> distIo < candidates)
    }

    ghost predicate Counting()
      reads this, frequency, isChecked
    {
      Tallied() && Checked()
    }

    /** Entry x of tree i is scanned. */
    method CountEntry(id: int, ghost i: nat, ghost x: int, ghost los': seq<int>, ghost his': seq<int>)
      requires Counting() && again && i < |tables| && 0 <= x < n && id == tables[i][x].id
      requires (x == los[i] - 1 && los' == los[i := x] && his' == his)
          || (x == his[i] && los' == los && his' == his[i := x + 1])
      modifies frequency, isChecked, this`distIo, this`scannedId, this`verified, this`again, this`flagNum
      modifies this`los, this`his
      ensures flagNum == if again then old(flagNum) else old(flagNum) + |trees|
      ensures Counting() && los == los' && his == his' && scannedId == old(scannedId) + 1 && old(verified) <= verified
    {
      CountsNext(frequency[..], tables, los, his, n, i, x, los', his');
      ghost var f := frequency[..];
      frequency[id] := frequency[id] + 1;
      scannedId := scannedId + 1;
      los, his := los', his';
      Verify(id, f);
    }

    /** The distance of a frequent object is computed once; the search stops with the last candidate. */
    method Verify(id: int, ghost f: seq<nat>)
      requires Verified(f, isChecked[..], verified, l) && distIo == |verified| < candidates && again
      requires 0 <= id < |f| && frequency[..] == f[id := f[id] + 1]
      modifies isChecked, this`distIo, this`verified, this`again, this`flagNum
      ensures Checked() && old(verified) <= verified
      ensures flagNum == if again then old(flagNum) else old(flagNum) + |trees|
    {
      if frequency[..][id] > l && !isChecked[..][id] {
        VerifiedMore(f, isChecked[..], verified, l, id);
        isChecked[id] := true;
        verified := verified + [id];
        distIo := distIo + 1;
        if distIo >= candidates {
          again := false;
          flagNum := flagNum + |trees|;
        }
      } else {
        VerifiedSame(f, isChecked[..], verified, l, id);
      }
    }

    /** The trees are loaded with sorted tables. */
    ghost predicate Opened()
      reads trees
    {
      && |trees| == |files| == |ts| == |tables| == |qVal| == lptr.Length == rptr.Length == flag.Length && lptr != rptr
           && flag != isChecked
      && OpenTrees(trees, files, ts, tables)
    }

    /** The cursors of the trees, and what their windows contain. */
    ghost predicate Placed(v: real, w: real)
      reads this, lptr, rptr, flag
    {
      AllPlaced(files, ts, qVal, lptr[..], rptr[..], los, his, flag[..], v, w)
    }

    /** In every tree segments were scanned at most once each, nearer ones before farther ones. */
    ghost predicate Trailed()
      reads this
    {
      AllTrails(ts, qVal, los, his, trails, again)
    }

    /** The segment of the left cursor of tree i is scanned, from its last entry on. */
    method ScanLeft(i: nat)
      requires Opened() && i < |trees| && Counting() && again
      requires LeftAt(files[i], ts[i], lptr[i], los[i]) && lptr[i].size != -1
      modifies frequency, isChecked, this`distIo, this`scannedId, this`verified, this`again, this`flagNum
      modifies this`los, this`his
      ensures flagNum == if again then old(flagNum) else old(flagNum) + |trees|
      ensures Counting() && his == old(his) && scannedId > old(scannedId)
      ensures again ==> los == old(los)[i := Start(ts[i], lptr[i])]
    {
      OpenAt(trees, files, ts, tables, i);
      ghost var t, f := ts[i], lptr[i].block - ts[i].start;
      ghost var base: int := t.cuts[f];
      SegSize(t.cuts, f, lptr[i].indexPos);
      var end := lptr[i].leafPos;
      var start := end - lptr[i].size;
      var j := end;
      while j > start && again
        invariant start <= j <= end && Counting() && his == old(his) && los == old(los)[i := base + j + 1]
        invariant (j == end ==> again) && scannedId == old(scannedId) + end - j
        invariant flagNum == if again then old(flagNum) else old(flagNum) + |trees|
      {
        EntryId(files[i], t, LeafCapacity(trees[i].blockLength), f, j);
        CountEntry(lptr[i].leaf.value.ids[j], i, base + j, los[i := base + j], his);
        j := j - 1;
      }
    }

    /** The segment of the right cursor of tree i is scanned, from its first entry on. */
    method ScanRight(i: nat)
      requires Opened() && i < |trees| && Counting() && again
      requires RightAt(files[i], ts[i], rptr[i], his[i]) && rptr[i].size != -1
      modifies frequency, isChecked, this`distIo, this`scannedId, this`verified, this`again, this`flagNum
      modifies this`los, this`his
      ensures flagNum == if again then old(flagNum) else old(flagNum) + |trees|
      ensures Counting() && los == old(los) && scannedId > old(scannedId)
      ensures again ==> his == old(his)[i := End(ts[i], rptr[i])]
    {
      OpenAt(trees, files, ts, tables, i);
      ghost var t, f := ts[i], rptr[i].block - ts[i].start;
      ghost var base: int := t.cuts[f];
      SegSize(t.cuts, f, rptr[i].indexPos);
      var start := rptr[i].leafPos;
      var end := start + rptr[i].size;
      var j := start;
      while j < end && again
        invariant start <= j <= end && Counting() && los == old(los) && his == old(his)[i := base + j]
        invariant (j == start ==> again) && scannedId == old(scannedId) + j - start
        invariant flagNum == if again then old(flagNum) else old(flagNum) + |trees|
      {
        EntryId(files[i], t, LeafCapacity(trees[i].blockLength), f, j);
        CountEntry(rptr[i].leaf.value.ids[j], i, base + j, los, his[i := base + j + 1]);
        j := j + 1;
      }
    }

    /** The nearest segment of tree i, at the left cursor, is scanned and joins the trail. */
    method ScanNearestLeft(i: nat, ghost v: real, ghost w: real)
      requires Opened() && i < |trees| && Counting() && again && Placed(v, w) && flag[i] && lptr[i].size != -1
      requires CanTakeLeft(ts[i], qVal[i], lptr[i], his[i], w) && Trailed()
      modifies frequency, isChecked, this`distIo, this`scannedId, this`verified, this`again, this`flagNum
      modifies this`los, this`his
      modifies this`trails
      ensures flagNum == if again then old(flagNum) else old(flagNum) + |trees|
      ensures OneLonger(old(trails), trails, i)
      ensures Counting() && his == old(his) && scannedId > old(scannedId) && Trailed()
      ensures again ==> los == old(los)[i := Start(ts[i], lptr[i])]
    {
      hide TrailAt, Objects, Counts, Verified, OneLonger;
      ghost var f, p, l0, h0 := lptr[i].block - ts[i].start, lptr[i].indexPos, los, his;
      OpenAt(trees, files, ts, tables, i);
      NearestLeft(files, ts, qVal, lptr[..], rptr[..], los, his, flag[..], v, w, i, LeafCapacity(trees[i].blockLength));
      ScanLeft(i);
      TrailsNext(ts, qVal, l0, h0, trails, i, Start(ts[i], lptr[i]), h0[i], f, p, los, his, again);
      AppendedIs(trails, i, (f, p));
      trails := trails[i := trails[i] + [(f, p)]];
    }

    /** The segment at the left cursor is scanned and the cursor moves on. */
    method GoLeft(i: nat, ghost v: real, ghost w: real)
      requires Opened() && i < |trees| && Counting() && again && Placed(v, w) && flag[i] && lptr[i].size != -1
      requires CanTakeLeft(ts[i], qVal[i], lptr[i], his[i], w) && Trailed()
      modifies frequency, isChecked, this`distIo, this`scannedId, this`verified, this`again, this`flagNum
      modifies this`los, this`his, lptr
      modifies this`trails
      ensures Counting() && scannedId > old(scannedId) && Trailed() && OneLonger(old(trails), trails, i)
      ensures flagNum == if again then old(flagNum) else old(flagNum) + |trees|
      ensures OthersFrom(ts[i], qVal[i], old(los)[i], old(his)[i],
                         Gap(ts[i].table[Start(ts[i], old(lptr[i]))].key, qVal[i]))
      ensures again ==> Placed(v, w)
    {
      hide AllTrails, Windows, Counts, Verified, OthersFrom, ScannedBelow, SortedTable, InTable, OneLonger;
      OpenAt(trees, files, ts, tables, i);
      ghost var l0, h0, ls, rs, fs := los, his, lptr[..], rptr[..], flag[..];
      ScanNearestLeft(i, v, w);
      var b := UpdateLeftBuffer(trees[i], lptr[i], ts[i]);
      LeftMoved(files, ts, qVal, ls, rs, l0, h0, fs, v, w, i, LeafCapacity(trees[i].blockLength), b);
      lptr[i] := b;
      assert lptr[..] == ls[i := b] && rptr[..] == rs && flag[..] == fs;
    }

    /** The nearest segment of tree i, at the right cursor, is scanned and joins the trail. */
    method ScanNearestRight(i: nat, ghost v: real, ghost w: real)
      requires Opened() && i < |trees| && Counting() && again && Placed(v, w) && flag[i] && rptr[i].size != -1
      requires CanTakeRight(ts[i], qVal[i], lptr[i], his[i], w) && Trailed()
      modifies frequency, isChecked, this`distIo, this`scannedId, this`verified, this`again, this`flagNum
      modifies this`los, this`his
      modifies this`trails
      ensures flagNum == if again then old(flagNum) else old(flagNum) + |trees|
      ensures OneLonger(old(trails), trails, i)
      ensures Counting() && los == old(los) && scannedId > old(scannedId) && Trailed()
      ensures again ==> his == old(his)[i := End(ts[i], rptr[i])]
    {
      hide TrailAt, Objects, Counts, Verified, OneLonger;
      ghost var f, p, l0, h0 := rptr[i].block - ts[i].start, rptr[i].indexPos, los, his;
      OpenAt(trees, files, ts, tables, i);
      NearestRight(files, ts, qVal, lptr[..], rptr[..], los, his, flag[..], v, w, i,
                   LeafCapacity(trees[i].blockLength));
      ScanRight(i);
      TrailsNext(ts, qVal, l0, h0, trails, i, l0[i], End(ts[i], rptr[i]), f, p, los, his, again);
      AppendedIs(trails, i, (f, p));
      trails := trails[i := trails[i] + [(f, p)]];
    }

    /** The segment at the right cursor is scanned and the cursor moves on. */
    method GoRight(i: nat, ghost v: real, ghost w: real)
      requires Opened() && i < |trees| && Counting() && again && Placed(v, w) && flag[i] && rptr[i].size != -1
      requires CanTakeRight(ts[i], qVal[i], lptr[i], his[i], w) && Trailed()
      modifies frequency, isChecked, this`distIo, this`scannedId, this`verified, this`again, this`flagNum
      modifies this`los, this`his, rptr
      modifies this`trails
      ensures Counting() && scannedId > old(scannedId) && Trailed() && OneLonger(old(trails), trails, i)
      ensures flagNum == if again then old(flagNum) else old(flagNum) + |trees|
      ensures OthersFrom(ts[i], qVal[i], old(los)[i], old(his)[i], Gap(ts[i].table[old(his)[i]].key, qVal[i]))
      ensures again ==> Placed(v, w)
    {
      hide AllTrails, Windows, Counts, Verified, OthersFrom, ScannedBelow, SortedTable, InTable, OneLonger;
      OpenAt(trees, files, ts, tables, i);
      ghost var l0, h0, ls, rs, fs := los, his, lptr[..], rptr[..], flag[..];
      ScanNearestRight(i, v, w);
      var b := UpdateRightBuffer(trees[i], rptr[i], ts[i]);
      RightMoved(files, ts, qVal, ls, rs, l0, h0, fs, v, w, i, LeafCapacity(trees[i].blockLength), b);
      rptr[i] := b;
      assert rptr[..] == rs[i := b] && lptr[..] == ls && flag[..] == fs;
    }

    /** A tree with nothing within the width is done for the round. */
    method Done(i: nat, ghost v: real, ghost w: real)
      requires Opened() && i < |trees| && Counting() && Placed(v, w) && flag[i]
      requires OthersFrom(ts[i], qVal[i], los[i], his[i], w)
      modifies flag, this`flagNum
      ensures Counting() && Placed(v, w)
      ensures flagNum == old(flagNum) + 1 && flag[..] == old(flag[..])[i := false]
    {
      hide AllTrails, Windows, Counts, Verified;
      assert PlacedAt(files[i], ts[i], qVal[i], lptr[..][i], rptr[..][i], los[i], his[i], w, v);
      PlacedUpdate(files, ts, qVal, lptr[..], rptr[..], los, his, flag[..], v, w, i, lptr[i], rptr[i], los[i], his[i],
                   false);
      SameAt(lptr[..], i);
      SameAt(rptr[..], i);
      SameAt(los, i);
      SameAt(his, i);
      flag[i] := false;
      flagNum := flagNum + 1;
      assert flag[..] == old(flag[..])[i := false];
    }

    /**
     A step of tree i: its nearest segment is scanned if it is within the width, else the tree is done for
     the round.
     */
    method ScanTree(i: nat, width: real, ghost v: real, ghost w: real)
      requires Opened() && i < |trees| && Counting() && again && Placed(v, w) && v <= w && width <= w
      requires (width < w ==> v == w)
      requires flag[i] && Trailed()
      modifies frequency, isChecked, this`distIo, this`scannedId, this`verified, this`again, this`los, this`his
      modifies lptr, rptr, flag, this`flagNum, this`trails
      ensures Counting() && flagNum >= old(flagNum) && scannedId >= old(scannedId) && Trailed()
      ensures Stepped(old(trails), trails, old(flag[..]), flag[..], i)
      ensures again ==> Placed(v, w) && Moved(old(scannedId), old(flagNum), old(flag[..]), i)
      ensures !again ==> flagNum >= |trees|
    {
      hide AllTrails, AllPlaced, Windows, Counts, Verified;
      var way := Choose(i, width, v, w);
      match way
      case Left => GoLeft(i, v, w);
      case Right => GoRight(i, v, w);
      case Neither => Done(i, v, w);
    }

    /** The nearer side within the width. */
    method Choose(i: nat, width: real, ghost v: real, ghost w: real) returns (way: Way)
      requires Opened() && i < |trees| && Placed(v, w) && width <= w && (width < w ==> v == w) && flag[i]
      ensures way == Left ==> lptr[i].size != -1 && CanTakeLeft(ts[i], qVal[i], lptr[i], his[i], w)
      ensures way == Right ==> rptr[i].size != -1 && CanTakeRight(ts[i], qVal[i], lptr[i], his[i], w)
      ensures way == Neither ==> InTable(ts[i]) && OthersFrom(ts[i], qVal[i], los[i], his[i], w)
    {
      OpenAt(trees, files, ts, tables, i);
      var leftDist, rightDist := CursorDists(i, v, w);
      if 0.0 <= leftDist < width && ((rightDist >= 0.0 && leftDist <= rightDist) || rightDist < 0.0) {
        way := Left;
      } else if 0.0 <= rightDist < width && ((leftDist >= 0.0 && leftDist > rightDist) || leftDist < 0.0) {
        way := Right;
      } else {
        NothingWithin(files[i], ts[i], LeafCapacity(trees[i].blockLength), qVal[i], lptr[..][i], rptr[..][i], los[i],
                      his[i], w, v,
                      leftDist, rightDist, width);
        way := Neither;
      }
    }

    /** The distances at the two cursors of tree i, -1 where there is none. */
    method CursorDists(i: nat, ghost v: real, ghost w: real) returns (leftDist: real, rightDist: real)
      requires Opened() && i < |trees| && Placed(v, w)
      ensures PlacedAt(files[i], ts[i], qVal[i], lptr[..][i], rptr[..][i], los[i], his[i], w,
                       if flag[..][i] then v else w)
      ensures Dists(ts[i], qVal[i], lptr[i], rptr[i], his[i], leftDist, rightDist)
    {
      OpenAt(trees, files, ts, tables, i);
      leftDist, rightDist := -1.0, -1.0;
      CursorGaps(files[i], ts[i], LeafCapacity(trees[i].blockLength), qVal[i], lptr[..][i], rptr[..][i], los[i],
                 his[i]);
      if lptr[i].size != -1 {
        leftDist := ProjDist(lptr[i], qVal[i]);
      }
      if rptr[i].size != -1 {
        rightDist := ProjDist(rptr[i], qVal[i]);
      }
    }

    /** Either entries were scanned, or the tree was marked as done. */
    ghost predicate Moved(scanned: nat, num: nat, flags: seq<bool>, i: nat)
      reads this, flag
    {
      if scannedId == scanned then i < |flags| && flags[i] && flag[..] == flags[i := false] && flagNum == num + 1
      else scannedId > scanned && flag[..] == flags && flagNum == num
    }

    /** Between two steps of a round: stopped, or all cursors in place. */
    ghost predicate Ready(v: real, w: real)
      reads this, frequency, isChecked, lptr, rptr, flag, trees
    {
      && Opened() && Counting() && Trailed() && (!again ==> flagNum >= |trees|)
      && (again ==> Placed(v, w) && flagNum == NotSet(flag[..]))
    }

    /** A tree that is not done takes a step. */
    method Visit(i: nat, width: real, ghost v: real, ghost w: real)
      requires Ready(v, w) && flagNum < |trees| && i < |trees| && v <= w && width <= w && (width < w ==> v == w)
      modifies frequency, isChecked, this`distIo, this`scannedId, this`verified, this`again, this`los, this`his
      modifies lptr, rptr, flag, this`flagNum, this`trails
      ensures Ready(v, w)
      ensures scannedId >= old(scannedId) && flagNum >= old(flagNum)
      ensures again && scannedId == old(scannedId) && flagNum == old(flagNum) && old(NoneLeft(flag[..], i)) ==>
          NoneLeft(flag[..], i + 1)
      ensures if old(flag[i]) then Stepped(old(trails), trails, old(flag[..]), flag[..], i)
              else trails == old(trails) && flag[..] == old(flag[..])
    {
      hide AllTrails, AllPlaced, Windows, Counts, Verified, Stepped;
      if flag[i] {
        NotSetUpdate(flag[..], i);
        ScanTree(i, width, v, w);
      }
    }

    /**
     One sweep over the trees that are not done, in their order, up to tree `end`; that is the last one unless the
     round is over. It gets somewhere.
     */
    method Sweep(width: real, ghost v: real, ghost w: real) returns (ghost end: nat)
      requires Ready(v, w) && flagNum < |trees| && v <= w && width <= w && (width < w ==> v == w)
      modifies frequency, isChecked, this`distIo, this`scannedId, this`verified, this`again, this`los, this`his
      modifies lptr, rptr, flag, this`flagNum, this`trails
      ensures Ready(v, w)
      ensures scannedId >= old(scannedId) && flagNum >= old(flagNum)
      ensures again && scannedId == old(scannedId) ==> flagNum > old(flagNum)
      ensures SweptTo(old(trails), trails, old(flag[..]), flag[..], end) && (flagNum < |trees| ==> end == |trees|)
    {
      hide AllTrails, AllPlaced, Windows, Counts, Verified, Stepped, SweptTo;
      SweepStarts();
      var i := 0;
      while i < |trees| && flagNum < |trees|
        invariant 0 <= i <= |trees| && Ready(v, w)
        invariant scannedId >= old(scannedId) && flagNum >= old(flagNum)
        invariant again && scannedId == old(scannedId) && flagNum == old(flagNum) ==> NoneLeft(flag[..], i)
        invariant SweptTo(old(trails), trails, old(flag[..]), flag[..], i)
      {
        ghost var mid, mids := trails, flag[..];
        Visit(i, width, v, w);
        SweptNext(old(trails), mid, trails, old(flag[..]), mids, flag[..], i);
        i := i + 1;
      }
      AllDone(flag[..], i);
      end := i;
    }

    lemma SweepStarts()
      requires Opened() && Trailed()
      ensures SweptTo(trails, trails, flag[..], flag[..], 0)
    {
    }

    /** All trees take part in a round again. */
    method ResetFlags(ghost v: real, ghost w: real)
      requires Opened() && Counting() && Trailed() && again && Placed(v, v) && v <= w
      modifies flag, this`flagNum
      ensures Ready(v, w) && flagNum == 0 && again && scannedId == old(scannedId)
    {
      hide AllTrails, Windows, Counts, Verified;
      ghost var flags := flag[..];
      flagNum := 0;
      SetAll();
      NoneSet(flag[..]);
      PlacedAgain(files, ts, qVal, lptr[..], rptr[..], los, his, flags, flag[..], v, w);
    }

    method SetAll()
      modifies flag
      ensures AllSet(flag[..])
    {
      var i := 0;
      while i < flag.Length
        invariant 0 <= i <= flag.Length && forall j :: 0 <= j < i ==> flag[j]
      {
        flag[i] := true;
        i := i + 1;
      }
    }

    /** One round: every segment nearer than the width is scanned, unless the last candidate is found before. */
    method Round(width: real, ghost v: real) returns (ghost w: real)
      requires Opened() && Counting() && Trailed() && again && Placed(v, v)
      modifies frequency, isChecked, this`distIo, this`scannedId, this`verified, this`again, this`los, this`his
      modifies lptr, rptr, flag, this`flagNum, this`trails
      ensures Opened() && Counting() && Trailed() && w == if v < width then width else v
      ensures again ==> Placed(w, w)
    {
      w := if v < width then width else v;
      ResetFlags(v, w);
      RunRound(width, v, w);
      RoundDone(files, ts, qVal, lptr[..], rptr[..], los, his, flag[..], v, w);
    }

    method RunRound(width: real, ghost v: real, ghost w: real)
      requires Ready(v, w) && v <= w && width <= w && (width < w ==> v == w)
      modifies frequency, isChecked, this`distIo, this`scannedId, this`verified, this`again, this`los, this`his
      modifies lptr, rptr, flag, this`flagNum, this`trails
      ensures Ready(v, w) && flagNum >= |trees|
    {
      hide AllTrails, AllPlaced, Windows, Counts, Verified;
      ghost var total: int := n * |tables|;
      while flagNum < |trees|
        invariant Ready(v, w)
        decreases total - scannedId, |trees| - flagNum
      {
        ScannedAtMost();
        ghost var _ := Sweep(width, v, w);
      }
    }

    lemma {:induction false} ScannedAtMost()
      requires Tallied()
      ensures scannedId <= n * |tables|
    {
      TotalBound(los, his, n);
    }

    /** Counters at zero, no page read yet. */
    constructor (trees: seq<BTree>, qVal: seq<real>, n: nat, l: int, topK: nat, ghost files: seq<seq<Page>>,
                 ghost ts: seq<Leaves>,
                 ghost tables: seq<seq<Entry>>)
      requires |trees| == |qVal| == |files| == |ts| == |tables|
      requires forall i :: 0 <= i < |trees| ==> Objects(tables[i], n)
      ensures this.trees == trees && this.qVal == qVal && this.n == n && this.l == l && candidates == 99 + topK
      ensures this.files == files && this.ts == ts && this.tables == tables
      ensures fresh(frequency) && fresh(isChecked) && fresh(lptr) && fresh(rptr) && fresh(flag)
      ensures lptr.Length == rptr.Length == flag.Length == |trees| && lptr != rptr && flag != isChecked
      ensures Counting() && again && verified == [] && forall i :: 0 <= i < |trees| ==> los[i] == his[i] == 0
      ensures trails == seq(|trees|, _ => [])
    {
      this.trees, this.qVal, this.n, this.l, candidates := trees, qVal, n, l, 99 + topK;
      this.files, this.ts, this.tables := files, ts, tables;
      frequency, isChecked := new nat[n](_ => 0), new bool[n](_ => false);
      lptr, rptr := new PageBuffer[|trees|](_ => NO_PAGE), new PageBuffer[|trees|](_ => NO_PAGE);
      flag := new bool[|trees|](_ => true);
      distIo, scannedId, verified, again, flagNum := 0, 0, [], true, 0;
      los, his, trails := seq(|trees|, _ => 0), seq(|trees|, _ => 0), seq(|trees|, _ => []);
      new;
      NothingCounted(frequency[..], this.tables, los, his, n);
    }

    /** The windows are empty. */
    ghost predicate NothingScanned()
      reads this
    {
      |los| == |his| && forall i :: 0 <= i < |los| ==> los[i] == his[i]
    }

    /** The cursors of the first k trees are in place, and nothing is scanned yet. */
    ghost predicate PlacedUpto(k: nat)
      reads this, lptr, rptr
    {
      && NothingScanned() && k <= |files| == |ts| == |qVal| == lptr.Length == rptr.Length == |los|
      && FirstPlaced(files, ts, qVal, lptr[..], rptr[..], los, his, k)
    }

    /** Every tree is searched for its query key. */
    method InitBuffers(ghost levels: seq<seq<Row>>)
      requires |trees| == |files| == |ts| == |tables| == |qVal| == |levels| == lptr.Length == rptr.Length == flag.Length
      requires lptr != rptr && flag != isChecked && LoadedTrees(trees, files, ts, tables, levels)
      requires Counting() && again && NothingScanned()
      modifies lptr, rptr, this`los, this`his
      ensures Opened() && Counting() && again && Placed(0.0, 0.0) && NothingScanned()
    {
      LoadedOpen(trees, files, ts, tables, levels);
      var i := 0;
      while i < |trees|
        invariant 0 <= i <= |trees| && Counting() && PlacedUpto(i) && LoadedTrees(trees, files, ts, tables, levels)
      {
        InitTree(i, levels);
        i := i + 1;
      }
      assert |flag[..]| == |ts|;
      LoadedOpen(trees, files, ts, tables, levels);
    }

    method InitTree(i: nat, ghost levels: seq<seq<Row>>)
      requires |trees| == |files| == |ts| == |tables| == |qVal| == |levels| == lptr.Length == rptr.Length && i < |trees|
      requires lptr != rptr && LoadedTrees(trees, files, ts, tables, levels) && Counting() && PlacedUpto(i)
      modifies lptr, rptr, this`los, this`his
      ensures Counting() && PlacedUpto(i + 1)
    {
      LoadedAt(trees, files, ts, tables, levels, i);
      var l, r := InitBuffer(trees[i], qVal[i], tables[i], levels[i]);
      ghost var s: int :| Meet(files[i], ts[i], l, r, s, qVal[i]);
      PlaceTree(i, l, r, s, LeafCapacity(trees[i].blockLength));
    }

    /** The cursors of tree i, around an empty window. */
    method PlaceTree(i: nat, l: PageBuffer, r: PageBuffer, ghost s: int, ghost capacity: nat)
      requires |trees| == |files| == |ts| == |tables| == |qVal| == lptr.Length == rptr.Length && i < |trees|
          && lptr != rptr
      requires Counting() && PlacedUpto(i) && Good(files[i], ts[i], capacity) && ts[i].table == tables[i]
      requires Meet(files[i], ts[i], l, r, s, qVal[i])
      modifies lptr, rptr, this`los, this`his
      ensures Counting() && PlacedUpto(i + 1)
    {
      FirstPlacedNext(files, ts, qVal, lptr[..], rptr[..], los, his, i, l, r, s, capacity);
      EmptyMoved(frequency[..], tables, los, his, n, i, s);
      lptr[i] := l;
      rptr[i] := r;
      los, his := los[i := s], his[i := s];
    }

    ghost predicate AllInTable() {
      |ts| == |qVal| && forall i :: 0 <= i < |ts| ==> InTable(ts[i])
    }

    /** The trees in which an object lies in a segment nearer than w. */
    ghost function NearTrees(w: real, id: int): set<int>
      requires AllInTable()
    {
      set i | 0 <= i < |ts| && Near(ts[i], qVal[i], w, id)
    }

    /** The objects that lie nearer than w in more than l trees, and in one at least. */
    ghost function FrequentWithin(w: real): set<int>
      requires AllInTable()
    {
      set id | 0 <= id < n && |NearTrees(w, id)| > l && NearTrees(w, id) != {}
    }

    /** The rounds made so far: how many distances each has led to, and why the next one followed. */
    ghost predicate Rounds(widths: seq<real>, near: seq<bool>, topK: nat, ios: seq<nat>)
      requires AllInTable() && |ios| <= |widths| == |near|
    {
      && (forall j :: 0 <= j < |ios| ==>
        ios[j] == candidates || (ios[j] < candidates && ios[j] == |FrequentWithin(Widest(widths[..j + 1]))|))
      && (forall i, j :: 0 <= i < j < |ios| ==> ios[i] <= ios[j])
      && forall j :: 0 <= j < |ios| - 1 ==> ios[j] < candidates && !(near[j] && ios[j] >= topK)
    }

    lemma {:induction false} RoundsNext(widths: seq<real>, near: seq<bool>, topK: nat, ios: seq<nat>)
      requires AllInTable() && |ios| < |widths| == |near| && Rounds(widths, near, topK, ios)
      requires var w := Widest(widths[..|ios| + 1]);
        Opened() && Counting() && (again ==> Placed(w, w))
      requires ios != [] ==> var j := |ios| - 1; ios[j] < candidates && !(near[j] && ios[j] >= topK)
      ensures Rounds(widths, near, topK, ios + [distIo])
    {
      hide Opened, Counting, Placed, FrequentWithin, AllInTable, Widest;
      StopsAtLast();
      var w, k := Widest(widths[..|ios| + 1]), |ios|;
      if again {
        VerifiedCount(w);
      }
      assert widths[..k + 1][..k] == widths[..k];
      if k > 0 && again {
        assert Widest(widths[..k]) <= w by {
          assert Widest(widths[..k]) == 0.0 || Widest(widths[..k]) in widths[..k + 1];
        }
        MoreFrequent(Widest(widths[..k]), w);
      }
    }

    lemma WidestNext(widths: seq<real>, k: nat)
      requires k < |widths|
      ensures var v := Widest(widths[..k]);
        Widest(widths[..k + 1]) == if v < widths[k] then widths[k] else v
    {
      assert widths[..k + 1][..k] == widths[..k];
    }

    lemma StopsAtLast()
      requires Counting()
      ensures distIo <= candidates && (again <==> distIo < candidates)
    {
    }

    /** A wider bound has no fewer frequent objects. */
    lemma {:induction false} MoreFrequent(v: real, w: real)
      requires AllInTable() && v <= w
      ensures |FrequentWithin(v)| <= |FrequentWithin(w)|
    {
      forall id | id in FrequentWithin(v)
        ensures id in FrequentWithin(w)
      {
        SubsetCount(NearTrees(v, id), NearTrees(w, id));
      }
      SubsetCount(FrequentWithin(v), FrequentWithin(w));
    }

    /** Between two rounds the distances computed are those of the frequent objects. */
    lemma {:induction false} VerifiedCount(w: real)
      requires Opened() && Counting() && Placed(w, w) && AllInTable()
      ensures distIo == |FrequentWithin(w)|
    {
      forall id
        ensures id in verified <==> id in FrequentWithin(w)
      {
        if 0 <= id < n {
          Exact(w, id);
          NearCountIs(ts, qVal, w, id);
        }
      }
      DistinctCount(verified, FrequentWithin(w));
    }

    /**
     Rounds of growing radius: bucket widths as the radius update gives them, and for each round
     whether the k-th result is near enough to stop. Returns the greatest width of the rounds made, and how
     many distances were computed by the end of each.
     */
    method Knn(widths: seq<real>, near: seq<bool>, topK: nat, ghost levels: seq<seq<Row>>) returns (rounds: nat,
               ghost w: real, ghost ios: seq<nat>)
      requires |trees| == |files| == |ts| == |tables| == |qVal| == |levels| == lptr.Length == rptr.Length == flag.Length
      requires lptr != rptr && flag != isChecked && LoadedTrees(trees, files, ts, tables, levels)
      requires Counting() && again && NothingScanned() && trails == seq(|trees|, _ => []) && |near| == |widths|
      modifies frequency, isChecked, this`distIo, this`scannedId, this`verified, this`again, this`los, this`his
      modifies lptr, rptr, flag, this`flagNum, this`trails
      ensures rounds <= |widths| && w == Widest(widths[..rounds])
      ensures Opened() && Counting() && Trailed() && (distIo < candidates ==> Placed(w, w))
      ensures AllInTable() && |ios| == rounds && (rounds > 0 ==> ios[rounds - 1] == distIo)
      ensures forall j :: 0 <= j < rounds ==>
        ios[j] == candidates || (ios[j] < candidates && ios[j] == |FrequentWithin(Widest(widths[..j + 1]))|)
      ensures forall i, j :: 0 <= i < j < rounds ==> ios[i] <= ios[j]
      ensures forall j :: 0 <= j < rounds - 1 ==> ios[j] < candidates && !(near[j] && ios[j] >= topK)
      ensures rounds < |widths| ==> distIo >= candidates || (rounds > 0 && near[rounds - 1] && distIo >= topK)
    {
      hide AllTrails, AllPlaced, Windows, Counts, Verified, FrequentWithin, NearTrees, InTable, Widest;
      InitBuffers(levels);
      StartTrails();
      rounds, w, ios := 0, 0.0, [];
      var stop := false;
      hide Trailed, Placed, Opened, Counting, Rounds, AllInTable, Widest;
      while rounds < |widths| && again && !stop
        invariant rounds <= |widths| && w == Widest(widths[..rounds]) && Opened() && Counting() && Trailed()
        invariant again ==> Placed(w, w)
        invariant stop <==> rounds > 0 && near[rounds - 1] && distIo >= topK
        invariant AllInTable() && |ios| == rounds && (rounds > 0 ==> ios[rounds - 1] == distIo)
        invariant Rounds(widths, near, topK, ios)
        decreases |widths| - rounds
      {
        stop, w, ios := NextRound(widths, near, topK, rounds, w, ios);
        rounds := rounds + 1;
      }
    }

    /** Round k, and whether its k-th result ends the search. */
    method NextRound(widths: seq<real>, near: seq<bool>, topK: nat, k: nat, ghost v: real, ghost ios: seq<nat>)
      returns (stop: bool, ghost w: real, ghost ios': seq<nat>)
      requires Opened() && Counting() && Trailed() && again && Placed(v, v) && AllInTable()
      requires |ios| == k < |widths| == |near| && Rounds(widths, near, topK, ios) && v == Widest(widths[..k])
      requires k > 0 ==> ios[k - 1] == distIo && !(near[k - 1] && distIo >= topK)
      modifies frequency, isChecked, this`distIo, this`scannedId, this`verified, this`again, this`los, this`his
      modifies lptr, rptr, flag, this`flagNum, this`trails
      ensures w == Widest(widths[..k + 1]) && Opened() && Counting() && Trailed() && (again ==> Placed(w, w))
      ensures (stop <==> near[k] && distIo >= topK) && ios' == ios + [distIo] && Rounds(widths, near, topK, ios')
    {
      hide Trailed, Placed, Opened, Counting, Rounds, AllInTable, Widest;
      StopsAtLast();
      WidestNext(widths, k);
      w := Round(widths[k], v);
      stop := near[k] && distIo >= topK;
      RoundsNext(widths, near, topK, ios);
      ios' := ios + [distIo];
    }

    lemma {:induction false} StartTrails()
      requires Opened() && Counting() && again && NothingScanned() && trails == seq(|trees|, _ => [])
      ensures Trailed() && AllInTable()
    {
      forall i | 0 <= i < |ts|
        ensures InTable(ts[i])
      {
        OpenAt(trees, files, ts, tables, i);
      }
      NoTrails(ts, qVal, los, his, |trees|);
    }

    /**
     Unless the search stopped with the last candidate, the trail of a tree leads through exactly its
     segments nearer than w.
     */
    lemma {:induction false} TrailIsNear(w: real, i: nat, f: int, p: int)
      requires Opened() && Counting() && Trailed() && again && Placed(w, w) && i < |ts| && IsSeg(ts[i].cuts, f, p)
      ensures InTable(ts[i]) && Trail(ts[i], qVal[i], trails[i])
      ensures (f, p) in trails[i] <==> SegGap(ts[i], qVal[i], f, p) < w
    {
      assert TrailAt(ts[i], qVal[i], los[i], his[i], trails[i], again);
      assert PlacedAt(files[i], ts[i], qVal[i], lptr[..][i], rptr[..][i], los[i], his[i], w,
                       if flag[..][i] then w else w);
    }

    /** What a search has counted and verified, stated without windows. */
    lemma {:induction false} Exact(w: real, id: int)
      requires Opened() && Counting() && Placed(w, w) && 0 <= id < n
      ensures forall i :: 0 <= i < |ts| ==> InTable(ts[i])
      ensures frequency[id] == NearCount(ts, qVal, w, id)
      ensures id in verified <==> frequency[id] > 0 && frequency[id] > l
    {
      var caps := seq(|trees|, i requires 0 <= i < |trees| => Natural(LeafCapacity(trees[i].blockLength)));
      forall i | 0 <= i < |ts|
        ensures Good(files[i], ts[i], caps[i]) && ts[i].table == tables[i]
        ensures PlacedAt(files[i], ts[i], qVal[i], lptr[..][i], rptr[..][i], los[i], his[i], w, w)
      {
        OpenAt(trees, files, ts, tables, i);
        assert PlacedAt(files[i], ts[i], qVal[i], lptr[..][i], rptr[..][i], los[i], his[i], w,
                       if flag[..][i] then w else w);
      }
      CollidedIsNear(files, caps, ts, qVal, lptr[..], rptr[..], tables, los, his, w, id);
      assert frequency[..][id] == frequency[id] && isChecked[..][id] == isChecked[id];
    }
  }

  function Natural(n: int): nat {
    if n < 0 then 0 else n
  }

  /** The greatest of these widths, or 0. */
  function Widest(widths: seq<real>): (widest: real)
    ensures widest == 0.0 || widest in widths
    ensures widest >= 0.0 && forall i :: 0 <= i < |widths| ==> widths[i] <= widest
  {
    if widths == [] then 0.0
    else
      var w := Widest(widths[..|widths| - 1]);
      if w < widths[|widths| - 1] then widths[|widths| - 1] else w
  }

  /** The first k trees have their cursors where the keys pass the query key. */
  ghost predicate FirstPlaced(files: seq<seq<Page>>, ts: seq<Leaves>, qs: seq<real>, ls: seq<PageBuffer>,
                              rs: seq<PageBuffer>,
                              los: seq<int>, his: seq<int>, k: nat)
    requires k <= |files| == |ts| == |qs| == |ls| == |rs| == |los| == |his|
  {
    forall i :: 0 <= i < k ==> PlacedAt(files[i], ts[i], qs[i], ls[i], rs[i], los[i], his[i], 0.0, 0.0)
  }

  lemma {:induction false} FirstPlacedNext(files: seq<seq<Page>>, ts: seq<Leaves>, qs: seq<real>, ls: seq<PageBuffer>,
                                           rs: seq<PageBuffer>,
                                           los: seq<int>, his: seq<int>, k: nat, l: PageBuffer, r: PageBuffer, s: int,
                                           capacity: nat)
    requires k < |files| == |ts| == |qs| == |ls| == |rs| == |los| == |his|
    requires FirstPlaced(files, ts, qs, ls, rs, los, his, k) && Good(files[k], ts[k], capacity)
    requires Meet(files[k], ts[k], l, r, s, qs[k])
    ensures FirstPlaced(files, ts, qs, ls[k := l], rs[k := r], los[k := s], his[k := s], k + 1)
  {
    GoodInTable(files[k], ts[k], capacity);
    forall i | 0 <= i < k
      ensures PlacedAt(files[i], ts[i], qs[i], ls[k := l][i], rs[k := r][i], los[k := s][i], his[k := s][i], 0.0, 0.0)
    {
      assert PlacedAt(files[i], ts[i], qs[i], ls[i], rs[i], los[i], his[i], 0.0, 0.0);
    }
  }

  /** An empty window can be moved. */
  lemma {:induction false} EmptyMoved(frequency: seq<nat>, tables: seq<seq<Entry>>, los: seq<int>, his: seq<int>,
                                      n: nat, i: nat, s: int)
    requires Windows(tables, los, his, n) && Counts(frequency, tables, los, his) && i < |tables| && los[i] == his[i]
    requires 0 <= s <= n
    ensures Windows(tables, los[i := s], his[i := s], n) && Counts(frequency, tables, los[i := s], his[i := s])
    ensures Total(los[i := s], his[i := s]) == Total(los, his)
  {
    forall id | 0 <= id < |frequency|
      ensures frequency[id] == Collided(tables, los[i := s], his[i := s], id)
    {
      CollidedUpdate(tables, los, his, los[i := s], his[i := s], i, id);
    }
    TotalUpdate(los, his, los[i := s], his[i := s], i);
  }

  /** Trees loaded from these tables. */
  ghost predicate LoadedTrees(trees: seq<BTree>, files: seq<seq<Page>>, ts: seq<Leaves>, tables: seq<seq<Entry>>,
                              levels: seq<seq<Row>>)
    requires |trees| == |files| == |ts| == |tables| == |levels|
    reads trees
  {
    trees == [] || (LoadedTree(trees[0], files[0], ts[0], tables[0], levels[0])
                    && LoadedTrees(trees[1..], files[1..], ts[1..], tables[1..], levels[1..]))
  }

  ghost predicate LoadedTree(tree: BTree, pages: seq<Page>, t: Leaves, table: seq<Entry>, rows: seq<Row>)
    reads tree
  {
    Loaded(tree, table, rows) && tree.pages == pages && t == Leaves(table, rows[0].start, rows[0].cuts)
  }

  lemma {:induction false} LoadedAt(trees: seq<BTree>, files: seq<seq<Page>>, ts: seq<Leaves>, tables: seq<seq<Entry>>,
                                    levels: seq<seq<Row>>, i: nat)
    requires |trees| == |files| == |ts| == |tables| == |levels| && i < |trees|
    requires LoadedTrees(trees, files, ts, tables, levels)
    ensures LoadedTree(trees[i], files[i], ts[i], tables[i], levels[i])
  {
    if i > 0 {
      LoadedAt(trees[1..], files[1..], ts[1..], tables[1..], levels[1..], i - 1);
    }
  }

  lemma {:induction false} LoadedOpen(trees: seq<BTree>, files: seq<seq<Page>>, ts: seq<Leaves>,
                                      tables: seq<seq<Entry>>, levels: seq<seq<Row>>)
    requires |trees| == |files| == |ts| == |tables| == |levels| && LoadedTrees(trees, files, ts, tables, levels)
    ensures OpenTrees(trees, files, ts, tables)
  {
    if trees != [] {
      assert RowOk(trees[0].pages, tables[0], levels[0], 0, LeafCapacity(trees[0].blockLength),
                   IndexCapacity(trees[0].blockLength));
      GoodInTable(files[0], ts[0], LeafCapacity(trees[0].blockLength));
      LoadedOpen(trees[1..], files[1..], ts[1..], tables[1..], levels[1..]);
    }
  }

  /** Empty windows count nothing. */
  lemma {:induction false} NothingCounted(frequency: seq<nat>, tables: seq<seq<Entry>>, los: seq<int>, his: seq<int>,
                                          n: nat)
    requires |tables| == |los| == |his| && forall i :: 0 <= i < |los| ==> los[i] == his[i]
    requires forall id :: 0 <= id < |frequency| ==> frequency[id] == 0
    ensures Counts(frequency, tables, los, his) && Total(los, his) == 0
  {
    forall id | 0 <= id < |frequency|
      ensures frequency[id] == Collided(tables, los, his, id)
    {
      NoCollision(tables, los, his, id);
    }
    NoTotal(los, his);
  }

  lemma {:induction false} NoCollision(tables: seq<seq<Entry>>, los: seq<int>, his: seq<int>, id: int)
    requires |tables| == |los| == |his| && forall i :: 0 <= i < |los| ==> los[i] == his[i]
    ensures Collided(tables, los, his, id) == 0
  {
    if tables != [] {
      var k := |tables| - 1;
      NoCollision(tables[..k], los[..k], his[..k], id);
    }
  }

  lemma {:induction false} NoTotal(los: seq<int>, his: seq<int>)
    requires |los| == |his| && forall i :: 0 <= i < |los| ==> los[i] == his[i]
    ensures Total(los, his) == 0
  {
    if los != [] {
      var k := |los| - 1;
      NoTotal(los[..k], his[..k]);
    }
  }

  ghost predicate AllSet(flags: seq<bool>) {
    forall i :: 0 <= i < |flags| ==> flags[i]
  }

  lemma {:induction false} NoneSet(flags: seq<bool>)
    requires AllSet(flags)
    ensures NotSet(flags) == 0
  {
    if flags != [] {
      NoneSet(flags[..|flags| - 1]);
    }
  }

  /** A wider bound for what was scanned. */
  lemma {:induction false} PlacedAgain(files: seq<seq<Page>>, ts: seq<Leaves>, qs: seq<real>, ls: seq<PageBuffer>,
                                       rs: seq<PageBuffer>,
                                       los: seq<int>, his: seq<int>, flags: seq<bool>, flags': seq<bool>, v: real,
                                       w: real)
    requires AllPlaced(files, ts, qs, ls, rs, los, his, flags, v, v) && v <= w && |flags'| == |flags|
    requires AllSet(flags')
    ensures AllPlaced(files, ts, qs, ls, rs, los, his, flags', v, w)
  {
    forall i | 0 <= i < |ts|
      ensures PlacedAt(files[i], ts[i], qs[i], ls[i], rs[i], los[i], his[i], w, v)
    {
      assert PlacedAt(files[i], ts[i], qs[i], ls[i], rs[i], los[i], his[i], v, v);
      Wider(ts[i], qs[i], los[i], his[i], v, w);
    }
  }

  lemma {:induction false} Wider(t: Leaves, q: real, lo: int, hi: int, v: real, w: real)
    requires InTable(t) && ScannedBelow(t, q, lo, hi, v) && v <= w
    ensures ScannedBelow(t, q, lo, hi, w)
  {
    forall f, p | IsSeg(t.cuts, f, p) && Scanned(t, lo, hi, f, p)
      ensures SegGap(t, q, f, p) < w
    {
    }
  }

  /** When all trees are done, the windows are exactly the segments nearer than w. */
  lemma {:induction false} RoundDone(files: seq<seq<Page>>, ts: seq<Leaves>, qs: seq<real>, ls: seq<PageBuffer>,
                                     rs: seq<PageBuffer>,
                                     los: seq<int>, his: seq<int>, flags: seq<bool>, v: real, w: real)
    ensures AllPlaced(files, ts, qs, ls, rs, los, his, flags, v, w) && NotSet(flags) >= |ts| ==>
              AllPlaced(files, ts, qs, ls, rs, los, his, flags, w, w)
  {
    NotSetAll(flags);
  }

  lemma {:induction false} AllDone(flags: seq<bool>, n: nat)
    ensures n == |flags| && NoneLeft(flags, n) ==> NotSet(flags) == |flags|
  {
    NotSetAll(flags);
  }

  /** The first n trees are done. */
  ghost predicate NoneLeft(flags: seq<bool>, n: nat) {
    n <= |flags| && forall j :: 0 <= j < n ==> !flags[j]
  }

  /** The number of trees that are done. */
  ghost function NotSet(flags: seq<bool>): nat {
    if flags == [] then 0 else NotSet(flags[..|flags| - 1]) + if flags[|flags| - 1] then 0 else 1
  }

  lemma {:induction false} NotSetUpdate(flags: seq<bool>, i: nat)
    requires i < |flags| && flags[i]
    ensures NotSet(flags[i := false]) == NotSet(flags) + 1
  {
    var k := |flags| - 1;
    if i < k {
      NotSetUpdate(flags[..k], i);
      assert flags[i := false][..k] == flags[..k][i := false];
    } else {
      assert flags[i := false][..k] == flags[..k];
    }
  }

  /** All trees are done exactly when the count says so. */
  lemma {:induction false} NotSetAll(flags: seq<bool>)
    ensures NotSet(flags) <= |flags|
    ensures NotSet(flags) == |flags| <==> forall i :: 0 <= i < |flags| ==> !flags[i]
  {
    if flags != [] {
      var k := |flags| - 1;
      NotSetAll(flags[..k]);
      assert forall i :: 0 <= i < k ==> flags[..k][i] == flags[i];
    }
  }

  /** A tree file loaded with a sorted table. */
  ghost predicate OpenTree(tree: BTree, pages: seq<Page>, t: Leaves, table: seq<Entry>)
    reads tree
  {
    Open(tree, t) && tree.pages == pages && SortedTable(t.table) && InTable(t) && t.table == table
  }

  /** All of them; by recursion, so that it is taken as a whole. */
  ghost predicate OpenTrees(trees: seq<BTree>, files: seq<seq<Page>>, ts: seq<Leaves>, tables: seq<seq<Entry>>)
    requires |trees| == |files| == |ts| == |tables|
    reads trees
  {
    trees == [] || (OpenTree(trees[0], files[0], ts[0], tables[0])
                    && OpenTrees(trees[1..], files[1..], ts[1..], tables[1..]))
  }

  lemma {:induction false} OpenAt(trees: seq<BTree>, files: seq<seq<Page>>, ts: seq<Leaves>, tables: seq<seq<Entry>>,
                                  i: nat)
    requires |trees| == |files| == |ts| == |tables| && i < |trees| && OpenTrees(trees, files, ts, tables)
    ensures OpenTree(trees[i], files[i], ts[i], tables[i])
  {
    if i > 0 {
      OpenAt(trees[1..], files[1..], ts[1..], tables[1..], i - 1);
    }
  }

  /** The cursors of a tree: scanned segments are nearer than w, the others no nearer than v. */
  ghost predicate PlacedAt(pages: seq<Page>, t: Leaves, q: real, lptr: PageBuffer, rptr: PageBuffer, lo: int, hi: int,
                           w: real, v: real) {
    && InTable(t) && CursorOk(pages, t, q, lptr, rptr, lo, hi)
    && ScannedBelow(t, q, lo, hi, w) && OthersFrom(t, q, lo, hi, v)
  }

  /** All trees: scanned segments are nearer than w, others no nearer than v, or w where the round is done. */
  ghost predicate AllPlaced(files: seq<seq<Page>>, ts: seq<Leaves>, qs: seq<real>, ls: seq<PageBuffer>,
                            rs: seq<PageBuffer>, los: seq<int>,
                            his: seq<int>, flags: seq<bool>, v: real, w: real)
  {
    && |files| == |ts| == |qs| == |ls| == |rs| == |los| == |his| == |flags|
    && forall i :: 0 <= i < |ts| ==>
         PlacedAt(files[i], ts[i], qs[i], ls[i], rs[i], los[i], his[i], w, if flags[i] then v else w)
  }

  lemma SameAt<T>(s: seq<T>, i: nat)
    requires i < |s|
    ensures s[i := s[i]] == s
  {
  }

  lemma {:induction false} PlacedUpdate(files: seq<seq<Page>>, ts: seq<Leaves>, qs: seq<real>, ls: seq<PageBuffer>,
                                        rs: seq<PageBuffer>,
                                        los: seq<int>, his: seq<int>, flags: seq<bool>, v: real, w: real, i: nat,
                                        l: PageBuffer, r: PageBuffer,
                                        lo: int, hi: int, flag: bool)
    requires AllPlaced(files, ts, qs, ls, rs, los, his, flags, v, w) && i < |ts|
    requires PlacedAt(files[i], ts[i], qs[i], l, r, lo, hi, w, if flag then v else w)
    ensures AllPlaced(files, ts, qs, ls[i := l], rs[i := r], los[i := lo], his[i := hi], flags[i := flag], v, w)
  {
  }

  /** The left segment is within w and no farther than the right one. */
  ghost predicate CanTakeLeft(t: Leaves, q: real, lptr: PageBuffer, hi: int, w: real) {
    && KeyBelow(t, lptr, q) && 0 <= hi && q - t.table[Start(t, lptr)].key < w
    && (hi < |t.table| ==> q - t.table[Start(t, lptr)].key <= t.table[hi].key - q)
  }

  ghost predicate CanTakeRight(t: Leaves, q: real, lptr: PageBuffer, hi: int, w: real) {
    && 0 <= hi < |t.table| && t.table[hi].key - q < w
    && (lptr.size != -1 ==> KeyBelow(t, lptr, q) && q - t.table[Start(t, lptr)].key >= t.table[hi].key - q)
  }

  /** The distances of the cursors to the query key. */
  ghost predicate Dists(t: Leaves, q: real, lptr: PageBuffer, rptr: PageBuffer, hi: int, leftDist: real,
                        rightDist: real) {
    && (if lptr.size == -1 then leftDist < 0.0
        else KeyBelow(t, lptr, q) && leftDist == q - t.table[Start(t, lptr)].key)
    && (if rptr.size == -1 then rightDist < 0.0 && hi >= |t.table|
        else 0 <= hi < |t.table| && t.table[hi].key > q && rightDist == t.table[hi].key - q)
  }

  /** When no branch is taken, both cursors are a width away. */
  lemma {:induction false} NothingWithin(pages: seq<Page>, t: Leaves, capacity: nat, q: real, lptr: PageBuffer,
                                         rptr: PageBuffer, lo: int,
                                         hi: int, w: real, v: real, leftDist: real, rightDist: real, width: real)
    requires Good(pages, t, capacity) && SortedTable(t.table) && PlacedAt(pages, t, q, lptr, rptr, lo, hi, w, v)
    requires Dists(t, q, lptr, rptr, hi, leftDist, rightDist) && width <= w && (width < w ==> v == w)
    requires !(0.0 <= leftDist < width && ((rightDist >= 0.0 && leftDist <= rightDist) || rightDist < 0.0))
    requires !(0.0 <= rightDist < width && ((leftDist >= 0.0 && leftDist > rightDist) || leftDist < 0.0))
    ensures OthersFrom(t, q, lo, hi, w)
  {
    if width == w {
      NoneWithin(pages, t, capacity, q, lptr, rptr, lo, hi, w);
    }
  }

  lemma {:induction false} LeftPlaced(pages: seq<Page>, t: Leaves, capacity: nat, q: real, lptr: PageBuffer,
                                      rptr: PageBuffer, lo: int, hi: int,
                                      w: real, v: real, b: PageBuffer)
    requires Good(pages, t, capacity) && SortedTable(t.table) && lptr.size != -1
    requires PlacedAt(pages, t, q, lptr, rptr, lo, hi, w, v) && CanTakeLeft(t, q, lptr, hi, w)
    requires LeftAt(pages, t, b, Start(t, lptr))
    ensures PlacedAt(pages, t, q, b, rptr, Start(t, lptr), hi, w, v)
    ensures OthersFrom(t, q, lo, hi, Gap(t.table[Start(t, lptr)].key, q))
  {
    TakeLeft(pages, t, capacity, q, lptr, rptr, lo, hi, w, v);
    SegSize(t.cuts, lptr.block - t.start, lptr.indexPos);
    if b.size != -1 {
      SegSize(t.cuts, b.block - t.start, b.indexPos);
    }
  }

  /** The segment at the left cursor of tree i is the nearest one left. */
  lemma {:induction false} NearestLeft(files: seq<seq<Page>>, ts: seq<Leaves>, qs: seq<real>, ls: seq<PageBuffer>,
                                       rs: seq<PageBuffer>, los: seq<int>, his: seq<int>, flags: seq<bool>, v: real,
                                       w: real, i: nat, capacity: nat)
    requires AllPlaced(files, ts, qs, ls, rs, los, his, flags, v, w) && i < |ts| && flags[i]
    requires Good(files[i], ts[i], capacity) && SortedTable(ts[i].table) && ls[i].size != -1
    requires CanTakeLeft(ts[i], qs[i], ls[i], his[i], w)
    ensures InTable(ts[i]) && LeftAt(files[i], ts[i], ls[i], los[i])
    ensures var f, p := ls[i].block - ts[i].start, ls[i].indexPos;
      && OneMore(ts[i], los[i], his[i], Start(ts[i], ls[i]), his[i], f, p)
      && OthersFrom(ts[i], qs[i], los[i], his[i], SegGap(ts[i], qs[i], f, p))
  {
    assert PlacedAt(files[i], ts[i], qs[i], ls[i], rs[i], los[i], his[i], w, v);
    TakeLeft(files[i], ts[i], capacity, qs[i], ls[i], rs[i], los[i], his[i], w, v);
    LeftOneMore(files[i], ts[i], capacity, ls[i], los[i], his[i]);
  }

  /** The segment at the right cursor of tree i is the nearest one left. */
  lemma {:induction false} NearestRight(files: seq<seq<Page>>, ts: seq<Leaves>, qs: seq<real>, ls: seq<PageBuffer>,
                                        rs: seq<PageBuffer>, los: seq<int>, his: seq<int>, flags: seq<bool>, v: real,
                                        w: real, i: nat, capacity: nat)
    requires AllPlaced(files, ts, qs, ls, rs, los, his, flags, v, w) && i < |ts| && flags[i]
    requires Good(files[i], ts[i], capacity) && SortedTable(ts[i].table) && rs[i].size != -1
    requires CanTakeRight(ts[i], qs[i], ls[i], his[i], w)
    ensures InTable(ts[i]) && RightAt(files[i], ts[i], rs[i], his[i])
    ensures var f, p := rs[i].block - ts[i].start, rs[i].indexPos;
      && OneMore(ts[i], los[i], his[i], los[i], End(ts[i], rs[i]), f, p)
      && OthersFrom(ts[i], qs[i], los[i], his[i], SegGap(ts[i], qs[i], f, p))
  {
    assert PlacedAt(files[i], ts[i], qs[i], ls[i], rs[i], los[i], his[i], w, v);
    TakeRight(files[i], ts[i], capacity, qs[i], ls[i], rs[i], los[i], his[i], w, v);
    RightOneMore(files[i], ts[i], capacity, rs[i], los[i], his[i]);
  }

  /** The cursors after the left one of tree i has moved. */
  lemma {:induction false} LeftMoved(files: seq<seq<Page>>, ts: seq<Leaves>, qs: seq<real>, ls: seq<PageBuffer>,
                                     rs: seq<PageBuffer>,
                                     los: seq<int>, his: seq<int>, flags: seq<bool>, v: real, w: real, i: nat,
                                     capacity: nat, b: PageBuffer)
    requires AllPlaced(files, ts, qs, ls, rs, los, his, flags, v, w) && i < |ts| && flags[i]
    requires Good(files[i], ts[i], capacity) && SortedTable(ts[i].table) && ls[i].size != -1
    requires CanTakeLeft(ts[i], qs[i], ls[i], his[i], w) && LeftAt(files[i], ts[i], b, Start(ts[i], ls[i]))
    ensures AllPlaced(files, ts, qs, ls[i := b], rs, los[i := Start(ts[i], ls[i])], his, flags, v, w)
    ensures OthersFrom(ts[i], qs[i], los[i], his[i], Gap(ts[i].table[Start(ts[i], ls[i])].key, qs[i]))
  {
    assert PlacedAt(files[i], ts[i], qs[i], ls[i], rs[i], los[i], his[i], w, v);
    LeftPlaced(files[i], ts[i], capacity, qs[i], ls[i], rs[i], los[i], his[i], w, v, b);
    PlacedUpdate(files, ts, qs, ls, rs, los, his, flags, v, w, i, b, rs[i], Start(ts[i], ls[i]), his[i], true);
    SameAt(rs, i);
    SameAt(his, i);
    SameAt(flags, i);
  }

  /** The cursors after the right one of tree i has moved. */
  lemma {:induction false} RightMoved(files: seq<seq<Page>>, ts: seq<Leaves>, qs: seq<real>, ls: seq<PageBuffer>,
                                      rs: seq<PageBuffer>,
                                      los: seq<int>, his: seq<int>, flags: seq<bool>, v: real, w: real, i: nat,
                                      capacity: nat, b: PageBuffer)
    requires AllPlaced(files, ts, qs, ls, rs, los, his, flags, v, w) && i < |ts| && flags[i]
    requires Good(files[i], ts[i], capacity) && SortedTable(ts[i].table) && rs[i].size != -1
    requires RightAt(files[i], ts[i], rs[i], his[i])
    requires CanTakeRight(ts[i], qs[i], ls[i], his[i], w) && RightAt(files[i], ts[i], b, End(ts[i], rs[i]))
    ensures AllPlaced(files, ts, qs, ls, rs[i := b], los, his[i := End(ts[i], rs[i])], flags, v, w)
    ensures OthersFrom(ts[i], qs[i], los[i], his[i], Gap(ts[i].table[his[i]].key, qs[i]))
  {
    assert PlacedAt(files[i], ts[i], qs[i], ls[i], rs[i], los[i], his[i], w, v);
    RightPlaced(files[i], ts[i], capacity, qs[i], ls[i], rs[i], los[i], his[i], w, v, b);
    PlacedUpdate(files, ts, qs, ls, rs, los, his, flags, v, w, i, ls[i], b, los[i], End(ts[i], rs[i]), true);
    SameAt(ls, i);
    SameAt(los, i);
    SameAt(flags, i);
  }

  lemma {:induction false} RightPlaced(pages: seq<Page>, t: Leaves, capacity: nat, q: real, lptr: PageBuffer,
                                       rptr: PageBuffer, lo: int, hi: int,
                                       w: real, v: real, b: PageBuffer)
    requires Good(pages, t, capacity) && SortedTable(t.table) && rptr.size != -1
    requires PlacedAt(pages, t, q, lptr, rptr, lo, hi, w, v) && CanTakeRight(t, q, lptr, hi, w)
    requires RightAt(pages, t, b, End(t, rptr))
    ensures PlacedAt(pages, t, q, lptr, b, lo, End(t, rptr), w, v)
    ensures OthersFrom(t, q, lo, hi, Gap(t.table[hi].key, q))
  {
    TakeRight(pages, t, capacity, q, lptr, rptr, lo, hi, w, v);
    SegSize(t.cuts, rptr.block - t.start, rptr.indexPos);
    LeafOfBlock(pages, t, capacity, rptr.block - t.start);
  }

  /** Id j of a leaf is that of its j-th entry. */
  lemma {:induction false} EntryId(pages: seq<Page>, t: Leaves, capacity: nat, f: int, j: int)
    requires Good(pages, t, capacity) && 0 <= f < |t.cuts| - 1 && 0 <= j && t.cuts[f] + j < t.cuts[f + 1]
    ensures t.start + f < |pages| && pages[t.start + f].LeafPage? && t.cuts[f + 1] <= |t.table|
    ensures j < |pages[t.start + f].leaf.ids| && pages[t.start + f].leaf.ids[j] == t.table[t.cuts[f] + j].id
  {
    LeafOfBlock(pages, t, capacity, f);
  }

  lemma VerifiedSame(frequency: seq<nat>, isChecked: seq<bool>, verified: seq<int>, l: int, id: int)
    requires Verified(frequency, isChecked, verified, l) && 0 <= id < |frequency|
    requires (isChecked[id] || frequency[id] + 1 <= l)
    ensures Verified(frequency[id := frequency[id] + 1], isChecked, verified, l)
  {
  }

  /** An object that has just been counted often enough is verified. */
  lemma VerifiedMore(frequency: seq<nat>, isChecked: seq<bool>, verified: seq<int>, l: int, id: int)
    requires Verified(frequency, isChecked, verified, l) && 0 <= id < |frequency| && !isChecked[id]
    requires frequency[id] + 1 > l
    ensures Verified(frequency[id := frequency[id] + 1], isChecked[id := true], verified + [id], l)
  {
  }

  /** The leaf that holds entry x. */
  lemma {:induction false} LeafOfEntry(cuts: seq<nat>, capacity: nat, x: int, g: nat) returns (f: nat)
    requires Cuts(cuts, capacity) && 0 <= x && 0 < g < |cuts| && x < cuts[g]
    ensures f < g && cuts[f] <= x < cuts[f + 1]
  {
    if cuts[g - 1] <= x {
      f := g - 1;
    } else {
      f := LeafOfEntry(cuts, capacity, x, g - 1);
    }
  }

  /** Every entry lies in a segment. */
  lemma {:induction false} SegmentOfEntry(pages: seq<Page>, t: Leaves, capacity: nat, x: int) returns (f: int, p: int)
    requires Good(pages, t, capacity) && 0 <= x < |t.table|
    ensures IsSeg(t.cuts, f, p) && SegStart(t.cuts, f, p) <= x < SegEnd(t.cuts, f, p)
  {
    f := LeafOfEntry(t.cuts, capacity, x, |t.cuts| - 1);
    p := (x - t.cuts[f]) / INCREMENT;
    EntrySegment(t.cuts[f + 1] - t.cuts[f], x - t.cuts[f], p);
  }

  lemma {:induction false} EntrySegment(n: nat, y: nat, p: int)
    requires y < n && p == y / INCREMENT
    ensures 0 <= p < Segments(n) && INCREMENT * p <= y < INCREMENT * (p + 1)
  {
    SegmentCover(n);
    FewerSegments(y + 1, n, p + 1, Segments(n));
  }

  /** Segments with the same start are the same. */
  lemma {:induction false} SameSegment(cuts: seq<nat>, capacity: nat, f: int, p: int, g: int, r: int)
    requires Cuts(cuts, capacity) && IsSeg(cuts, f, p) && IsSeg(cuts, g, r)
    requires SegStart(cuts, f, p) == SegStart(cuts, g, r)
    ensures f == g && p == r
  {
    SegSize(cuts, f, p);
    SegSize(cuts, g, r);
    if f < g {
      if f + 1 < g {
        CutsOrdered(cuts, capacity, f + 1, g);
      }
    } else if g < f && g + 1 < f {
      CutsOrdered(cuts, capacity, g + 1, f);
    }
  }

  /** A window consists of whole segments. */
  lemma {:induction false} WholeSegments(pages: seq<Page>, t: Leaves, capacity: nat, q: real, lptr: PageBuffer,
                                         rptr: PageBuffer, lo: int,
                                         hi: int, f: int, p: int, x: int)
    requires Good(pages, t, capacity) && CursorOk(pages, t, q, lptr, rptr, lo, hi)
    requires IsSeg(t.cuts, f, p) && SegStart(t.cuts, f, p) <= x < SegEnd(t.cuts, f, p)
    ensures lo <= x < hi <==> Scanned(t, lo, hi, f, p)
  {
    SegSize(t.cuts, f, p);
    LeafOfBlock(pages, t, capacity, f);
    if SegStart(t.cuts, f, p) < lo {
      BeforeLeft(pages, t, capacity, lptr, lo, f, p);
      var g, r := lptr.block - t.start, lptr.indexPos;
      if SegStart(t.cuts, f, p) < Start(t, lptr) {
        SegOrder(t.cuts, capacity, f, p, g, r);
        SegSize(t.cuts, g, r);
      } else {
        SameSegment(t.cuts, capacity, f, p, g, r);
      }
    } else if SegStart(t.cuts, f, p) < hi && rptr.size != -1 {
      SegOrder(t.cuts, capacity, f, p, rptr.block - t.start, rptr.indexPos);
    }
  }

  /** Object id lies in a segment of the tree that is nearer than w. */
  ghost predicate Near(t: Leaves, q: real, w: real, id: int)
    requires InTable(t)
  {
    exists f, p, x :: IsSeg(t.cuts, f, p) && Holds(t, f, p, x, id) && SegGap(t, q, f, p) < w
  }

  ghost predicate Holds(t: Leaves, f: int, p: int, x: int, id: int)
    requires IsSeg(t.cuts, f, p)
  {
    SegStart(t.cuts, f, p) <= x < SegEnd(t.cuts, f, p) && 0 <= x < |t.table| && t.table[x].id == id
  }

  /** With cursors in place for w, the objects seen are those in segments nearer than w. */
  lemma {:induction false} SeenIffNear(pages: seq<Page>, t: Leaves, capacity: nat, q: real, lptr: PageBuffer,
                                       rptr: PageBuffer, lo: int,
                                       hi: int, w: real, id: int)
    requires Good(pages, t, capacity) && PlacedAt(pages, t, q, lptr, rptr, lo, hi, w, w)
    ensures Seen(t.table, lo, hi, id) <==> Near(t, q, w, id)
  {
    if Seen(t.table, lo, hi, id) {
      var x :| 0 <= x < |t.table| && lo <= x < hi && t.table[x].id == id;
      var f, p := SegmentOfEntry(pages, t, capacity, x);
      WholeSegments(pages, t, capacity, q, lptr, rptr, lo, hi, f, p, x);
      assert Holds(t, f, p, x, id);
    }
    if Near(t, q, w, id) {
      var f, p, x :| IsSeg(t.cuts, f, p) && Holds(t, f, p, x, id) && SegGap(t, q, f, p) < w;
      WholeSegments(pages, t, capacity, q, lptr, rptr, lo, hi, f, p, x);
    }
  }

  /** The number of trees in which an object lies in a segment nearer than w. */
  ghost function NearCount(ts: seq<Leaves>, qs: seq<real>, w: real, id: int): nat
    requires |ts| == |qs| && forall i :: 0 <= i < |ts| ==> InTable(ts[i])
  {
    if ts == [] then 0
    else
      var k := |ts| - 1;
      NearCount(ts[..k], qs[..k], w, id) + if Near(ts[k], qs[k], w, id) then 1 else 0
  }

  lemma {:induction false} NearCountIs(ts: seq<Leaves>, qs: seq<real>, w: real, id: int)
    requires |ts| == |qs| && forall i :: 0 <= i < |ts| ==> InTable(ts[i])
    ensures NearCount(ts, qs, w, id) == |set i | 0 <= i < |ts| && Near(ts[i], qs[i], w, id)|
    ensures NearCount(ts, qs, w, id) > 0 <==> exists i :: 0 <= i < |ts| && Near(ts[i], qs[i], w, id)
  {
    hide Near, InTable;
    if ts != [] {
      var k := |ts| - 1;
      NearCountIs(ts[..k], qs[..k], w, id);
      var before := set i | 0 <= i < k && Near(ts[..k][i], qs[..k][i], w, id);
      var all := set i | 0 <= i < |ts| && Near(ts[i], qs[i], w, id);
      assert all == before + if Near(ts[k], qs[k], w, id) then {k} else {};
      assert forall i :: 0 <= i < k ==> ts[..k][i] == ts[i] && qs[..k][i] == qs[i];
    }
  }

  lemma {:induction false} SubsetCount<T>(a: set<T>, b: set<T>)
    requires a <= b
    ensures |a| <= |b|
  {
    assert b == a + (b - a);
  }

  /** A repetition-free sequence of the elements of a set is as long as the set is large. */
  lemma {:induction false} DistinctCount(s: seq<int>, all: set<int>)
    requires Distinct(s) && forall x :: x in s <==> x in all
    ensures |s| == |all|
  {
    if s == [] {
      forall x
        ensures x !in all
      {
        assert x !in s;
      }
    } else {
      var n := |s| - 1;
      assert forall x :: x in s <==> x in s[..n] || x == s[n];
      DistinctCount(s[..n], all - {s[n]});
    }
  }

  /** The count of an object is the number of trees in which it lies nearer than w. */
  lemma {:induction false} CollidedIsNear(files: seq<seq<Page>>, caps: seq<nat>, ts: seq<Leaves>, qs: seq<real>,
                                          ls: seq<PageBuffer>,
                                          rs: seq<PageBuffer>, tables: seq<seq<Entry>>, los: seq<int>, his: seq<int>,
                                          w: real, id: int)
    requires |files| == |caps| == |ts| == |qs| == |ls| == |rs| == |tables| == |los| == |his|
    requires forall i :: 0 <= i < |ts| ==> PlacedAt(files[i], ts[i], qs[i], ls[i], rs[i], los[i], his[i], w, w)
    requires forall i :: 0 <= i < |ts| ==> Good(files[i], ts[i], caps[i])
    requires forall i :: 0 <= i < |ts| ==> ts[i].table == tables[i]
    ensures forall i :: 0 <= i < |ts| ==> InTable(ts[i])
    ensures Collided(tables, los, his, id) == NearCount(ts, qs, w, id)
  {
    forall i | 0 <= i < |ts|
      ensures InTable(ts[i])
    {
      assert PlacedAt(files[i], ts[i], qs[i], ls[i], rs[i], los[i], his[i], w, w);
    }
    if ts != [] {
      var k := |ts| - 1;
      forall i | 0 <= i < k
        ensures PlacedAt(files[..k][i], ts[..k][i], qs[..k][i], ls[..k][i], rs[..k][i], los[..k][i], his[..k][i], w, w)
      {
        assert PlacedAt(files[i], ts[i], qs[i], ls[i], rs[i], los[i], his[i], w, w);
      }
      CollidedIsNear(files[..k], caps[..k], ts[..k], qs[..k], ls[..k], rs[..k], tables[..k], los[..k], his[..k], w, id);
      assert PlacedAt(files[k], ts[k], qs[k], ls[k], rs[k], los[k], his[k], w, w);
      SeenIffNear(files[k], ts[k], caps[k], qs[k], ls[k], rs[k], los[k], his[k], w, id);
    }
  }
}
