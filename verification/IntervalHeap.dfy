/**
 The interval heap: a double-ended priority queue in one vector of intervals.
 The left ends form a min-heap, the right ends a max-heap, and an odd element
 out is stored on both ends of the last node.
 */
module IntervalHeaps {
  import opened Selections

  /** A pending branch of a tree search; only the distance takes part in <. */
  datatype Branch = Branch(mindist: int, node: int)

  datatype Interval = Interval(left: Branch, right: Branch)

  /** Number of nodes that hold n elements. */
  function Nodes(n: nat): nat {
    n / 2 + n % 2
  }

  /** The k-th element, counted from 1: left and right end of node 1, then of node 2, and so on. */
  function Slot(h: seq<Interval>, k: nat): Branch
    requires 1 <= k && Nodes(k) < |h|
  {
    if k % 2 == 1 then h[Nodes(k)].left else h[Nodes(k)].right
  }

  /** The elements of a heap of size n; the copy in an odd last node is not counted. */
  ghost function Contents(h: seq<Interval>, n: nat): multiset<Branch>
    requires Nodes(n) < |h|
  {
    if n == 0 then multiset{} else Contents(h, n - 1) + multiset{Slot(h, n)}
  }

  /** Node i is an interval inside the interval of its parent. */
  ghost predicate NodeOk(h: seq<Interval>, i: nat)
    requires 1 <= i < |h|
  {
    && h[i].left.mindist <= h[i].right.mindist
    && (i > 1 ==> h[i / 2].left.mindist <= h[i].left.mindist && h[i].right.mindist <= h[i / 2].right.mindist)
  }

  /** Nodes 1..m are in order, except that nothing is said of node m when it is fresh. */
  ghost predicate OrderedBut(h: seq<Interval>, m: nat, isFresh: bool)
    requires m < |h|
  {
    forall i :: 1 <= i <= m && !(isFresh && i == m) ==> NodeOk(h, i)
  }

  /** The interval heap of n elements. */
  ghost predicate GoodHeap(h: seq<Interval>, n: nat) {
    && Nodes(n) < |h| && OrderedBut(h, Nodes(n), false)
    && (n % 2 == 1 ==> h[Nodes(n)].left == h[Nodes(n)].right)
  }

  lemma NodesParity(n: nat)
    ensures n % 2 == 0 ==> n == 2 * Nodes(n) && Nodes(n + 1) == Nodes(n) + 1
    ensures n % 2 == 1 ==> n == 2 * Nodes(n) - 1 && Nodes(n + 1) == Nodes(n)
    ensures n >= 2 ==> Nodes(n) >= 1
    ensures forall c: nat :: n < c ==> Nodes(n + 1) <= Nodes(c)
  {
  }

  lemma {:induction false} SlotsOf(h: seq<Interval>, i: nat)
    requires 1 <= i < |h|
    ensures Nodes(2 * i - 1) == Nodes(2 * i) == i
    ensures Slot(h, 2 * i - 1) == h[i].left && Slot(h, 2 * i) == h[i].right
    ensures Contents(h, 2 * i) == Contents(h, 2 * i - 1) + multiset{h[i].right}
    ensures Contents(h, 2 * i - 1) == Contents(h, 2 * i - 2) + multiset{h[i].left}
  {
  }

  /** a is b with one occurrence of gone replaced by one of come. */
  ghost predicate Swapped(a: multiset<Branch>, b: multiset<Branch>, gone: Branch, come: Branch) {
    forall x :: a[x] + (if x == gone then 1 else 0) == b[x] + if x == come then 1 else 0
  }

  lemma SwapTwice(a: multiset<Branch>, b: multiset<Branch>, c: multiset<Branch>, x: Branch,
                                     y: Branch, z: Branch)
    requires Swapped(a, b, y, z) && Swapped(b, c, x, y)
    ensures Swapped(a, c, x, z)
  {
  }

  lemma SwapFresh(a: multiset<Branch>, b: multiset<Branch>, x: Branch, v: Branch)
    requires Swapped(a, b + multiset{x}, x, v)
    ensures a == b + multiset{v}
  {
  }

  /** Swapping the element r of the one for x of the other, beside common elements l. */
  lemma {:induction false} SwapPair(a: multiset<Branch>, b: multiset<Branch>, l: Branch, r: Branch, x: Branch,
                                    v: Branch)
    requires Swapped(a + multiset{l} + multiset{x}, b + multiset{l} + multiset{r}, r, v)
    ensures a + multiset{x} == b + multiset{v}
  {
    forall y
      ensures (a + multiset{x})[y] == (b + multiset{v})[y]
    {
      assert (a + multiset{l} + multiset{x})[y] == a[y] + multiset{l}[y] + multiset{x}[y];
      assert (b + multiset{l} + multiset{r})[y] == b[y] + multiset{l}[y] + multiset{r}[y];
    }
  }

  lemma SwapBack(a: multiset<Branch>, b: multiset<Branch>, elem: Branch, value: Branch)
    requires Swapped(a, b, value, elem)
    ensures b + multiset{elem} == a + multiset{value}
  {
  }

  function WithLeft(h: seq<Interval>, i: nat, x: Branch): seq<Interval>
    requires i < |h|
  {
    h[i := h[i].(left := x)]
  }

  function WithRight(h: seq<Interval>, i: nat, x: Branch): seq<Interval>
    requires i < |h|
  {
    h[i := h[i].(right := x)]
  }

  lemma {:induction false} SameContents(g: seq<Interval>, h: seq<Interval>, n: nat)
    requires Nodes(n) < |g| && Nodes(n) < |h|
    requires forall k :: 1 <= k <= n ==> Slot(h, k) == Slot(g, k)
    ensures Contents(h, n) == Contents(g, n)
  {
    if n > 0 {
      SameContents(g, h, n - 1);
    }
  }

  lemma SwapBase(a: multiset<Branch>, gone: Branch, come: Branch)
    ensures Swapped(a + multiset{come}, a + multiset{gone}, gone, come)
  {
  }

  lemma {:induction false} SwapMore(a: multiset<Branch>, b: multiset<Branch>, gone: Branch, come: Branch, x: Branch)
    requires Swapped(a, b, gone, come)
    ensures Swapped(a + multiset{x}, b + multiset{x}, gone, come)
  {
    forall y
      ensures (a + multiset{x})[y] + (if y == gone then 1 else 0) == (b + multiset{x})[y] + if y == come then 1 else 0
    {
      assert a[y] + (if y == gone then 1 else 0) == b[y] + if y == come then 1 else 0;
    }
  }

  lemma {:induction false} ContentsStep(h: seq<Interval>, n: nat)
    requires 1 <= n && Nodes(n) < |h|
    ensures (forall c: nat :: c <= n ==> Nodes(c) <= Nodes(n))
    ensures Contents(h, n) == Contents(h, n - 1) + multiset{Slot(h, n)}
  {
  }

  /** Rewriting one slot. */
  lemma {:induction false} SlotUpdate(g: seq<Interval>, h: seq<Interval>, k: nat, n: nat)
    requires 1 <= k <= n && Nodes(n) < |g| && Nodes(n) < |h|
    requires forall j :: 1 <= j <= n && j != k ==> Slot(h, j) == Slot(g, j)
    ensures Swapped(Contents(h, n), Contents(g, n), Slot(g, k), Slot(h, k))
  {
    hide Contents, Slot, Swapped, Nodes;
    ContentsStep(g, n);
    ContentsStep(h, n);
    if k == n {
      SameContents(g, h, n - 1);
      SwapBase(Contents(g, n - 1), Slot(g, n), Slot(h, n));
    } else {
      SlotUpdate(g, h, k, n - 1);
      SwapMore(Contents(h, n - 1), Contents(g, n - 1), Slot(g, k), Slot(h, k), Slot(g, n));
    }
  }

  lemma {:induction false} SameNodes(g: seq<Interval>, h: seq<Interval>, m: nat)
    requires m < |g| && m < |h| && forall i :: 1 <= i <= m ==> h[i] == g[i]
    ensures Nodes(2 * m) == m && Contents(h, 2 * m) == Contents(g, 2 * m)
  {
    if m > 0 {
      SameNodes(g, h, m - 1);
      SlotsOf(g, m);
      SlotsOf(h, m);
    }
  }

  lemma {:induction false} SameUpToLast(g: seq<Interval>, h: seq<Interval>, m: nat)
    requires 1 <= m < |g| && m < |h| && forall i :: 1 <= i < m ==> h[i] == g[i]
    ensures Nodes(2 * m - 2) == m - 1 && Contents(h, 2 * m - 2) == Contents(g, 2 * m - 2)
    ensures Nodes(2 * m - 1) == m
    ensures h[m].left == g[m].left ==> Contents(h, 2 * m - 1) == Contents(g, 2 * m - 1)
  {
    SameNodes(g, h, m - 1);
    SlotsOf(g, m);
    SlotsOf(h, m);
  }

  lemma {:induction false} LeftUpdate(h: seq<Interval>, i: nat, x: Branch, n: nat)
    requires 1 <= i && 2 * i - 1 <= n && Nodes(n) < |h|
    ensures Swapped(Contents(WithLeft(h, i, x), n), Contents(h, n), h[i].left, x)
  {
    var h' := WithLeft(h, i, x);
    SlotsOf(h, i);
    SlotsOf(h', i);
    forall j | 1 <= j <= n && j != 2 * i - 1
      ensures Slot(h', j) == Slot(h, j)
    {
      NodesParity(j);
    }
    SlotUpdate(h, h', 2 * i - 1, n);
  }

  lemma {:induction false} RightUpdate(h: seq<Interval>, i: nat, x: Branch, n: nat)
    requires 1 <= i && 2 * i <= n && Nodes(n) < |h|
    ensures Swapped(Contents(WithRight(h, i, x), n), Contents(h, n), h[i].right, x)
  {
    var h' := WithRight(h, i, x);
    SlotsOf(h, i);
    SlotsOf(h', i);
    forall j | 1 <= j <= n && j != 2 * i
      ensures Slot(h', j) == Slot(h, j)
    {
      NodesParity(j);
    }
    SlotUpdate(h, h', 2 * i, n);
  }

  lemma {:induction false} Members(h: seq<Interval>, n: nat, x: Branch)
    requires Nodes(n) < |h|
    ensures x in Contents(h, n) <==> exists k :: 1 <= k <= n && Slot(h, k) == x
  {
    if n > 0 {
      Members(h, n - 1, x);
    }
  }

  lemma {:induction false} ContentsSize(h: seq<Interval>, n: nat)
    requires Nodes(n) < |h|
    ensures |Contents(h, n)| == n
  {
    if n > 0 {
      ContentsSize(h, n - 1);
    }
  }

  /** The root interval encloses every other one. */
  lemma {:induction false} RootEncloses(h: seq<Interval>, m: nat, i: nat)
    requires m < |h| && OrderedBut(h, m, false) && 1 <= i <= m
    ensures h[1].left.mindist <= h[i].left.mindist <= h[i].right.mindist <= h[1].right.mindist
    decreases i
  {
    assert NodeOk(h, i);
    if i > 1 {
      RootEncloses(h, m, i / 2);
    }
  }

  /** The ends of the root are the least and the greatest element. */
  lemma {:induction false} RootIsExtreme(h: seq<Interval>, n: nat)
    requires n > 0 && GoodHeap(h, n)
    ensures h[1].left in Contents(h, n) && h[1].right in Contents(h, n)
    ensures forall x :: x in Contents(h, n) ==> h[1].left.mindist <= x.mindist <= h[1].right.mindist
  {
    SlotsOf(h, 1);
    Members(h, n, h[1].left);
    Members(h, n, h[1].right);
    forall x | x in Contents(h, n)
      ensures h[1].left.mindist <= x.mindist <= h[1].right.mindist
    {
      Members(h, n, x);
      var k :| 1 <= k <= n && Slot(h, k) == x;
      RootEncloses(h, Nodes(n), Nodes(k));
    }
  }

  lemma {:induction false} RaiseLeft(h: seq<Interval>, m: nat, isFresh: bool, pos: nat)
    requires 1 < pos <= m < |h| && OrderedBut(h, m, isFresh)
    ensures OrderedBut(WithLeft(h, pos, h[pos / 2].left), m, isFresh)
  {
    var h' := WithLeft(h, pos, h[pos / 2].left);
    forall i | 1 <= i <= m && !(isFresh && i == m)
      ensures NodeOk(h', i)
    {
      assert NodeOk(h, i);
      if pos < m {
        assert NodeOk(h, pos);
      }
    }
  }

  lemma {:induction false} SettleLeft(h: seq<Interval>, m: nat, isFresh: bool, pos: nat, v: Branch)
    requires 1 <= pos <= m < |h| && OrderedBut(h, m, isFresh) && !(isFresh && pos == m)
    requires v.mindist <= h[pos].left.mindist
    requires pos > 1 ==> h[pos / 2].left.mindist <= v.mindist
    ensures OrderedBut(WithLeft(h, pos, v), m, isFresh)
  {
    var h' := WithLeft(h, pos, v);
    forall i | 1 <= i <= m && !(isFresh && i == m)
      ensures NodeOk(h', i)
    {
      assert NodeOk(h, i);
    }
  }

  /** The left end of a fresh last node fits between the ends of its parent. */
  ghost predicate FreshLeft(g: seq<Interval>, h: seq<Interval>, last: nat)
    requires 1 <= last < |h| && last < |g|
  {
    last > 1 && h[last / 2].left.mindist <= h[last].left.mindist && h[last].left.mindist <= g[last / 2].right.mindist
  }

  /** Where the insertion of value stands: the left end of pos is the hole. */
  ghost predicate SiftingLeft(g: seq<Interval>, h: seq<Interval>, last: nat, isFresh: bool, value: Branch, pos: nat) {
    && 1 <= pos <= last < |h| == |g| && h[last].right == g[last].right
    && (isFresh ==> last > 1 && h[last / 2].right == g[last / 2].right)
    && OrderedBut(g, last, isFresh) && OrderedBut(h, last, isFresh)
    && (pos < last || !isFresh ==> value.mindist <= h[pos].left.mindist)
    && (isFresh && pos < last ==> FreshLeft(g, h, last))
    && (pos == last ==> h == g)
    && Nodes(2 * last) == last
    && Swapped(Contents(h, 2 * last), Contents(g, 2 * last), g[last].left, h[pos].left)
  }

  /** The value is in place; the ends it passed moved down one step each. */
  ghost predicate SiftedLeft(g: seq<Interval>, h: seq<Interval>, last: nat, isFresh: bool, value: Branch) {
    && 1 <= last < |h| == |g| && h[last].right == g[last].right
    && (isFresh ==> last > 1 && h[last / 2].right == g[last / 2].right)
    && OrderedBut(h, last, isFresh)
    && (isFresh ==> FreshLeft(g, h, last))
    && Nodes(2 * last) == last
    && Swapped(Contents(h, 2 * last), Contents(g, 2 * last), g[last].left, value)
  }

  lemma {:induction false} SiftLeftStep(g: seq<Interval>, h: seq<Interval>, last: nat, isFresh: bool, value: Branch,
                                        pos: nat)
    requires SiftingLeft(g, h, last, isFresh, value, pos)
    requires pos > 1 && value.mindist < h[pos / 2].left.mindist
    ensures SiftingLeft(g, WithLeft(h, pos, h[pos / 2].left), last, isFresh, value, pos / 2)
  {
    var h' := WithLeft(h, pos, h[pos / 2].left);
    RaiseLeft(h, last, isFresh, pos);
    LeftUpdate(h, pos, h[pos / 2].left, 2 * last);
    SwapTwice(Contents(h', 2 * last), Contents(h, 2 * last), Contents(g, 2 * last), g[last].left, h[pos].left,
              h[pos / 2].left);
    if isFresh {
      assert NodeOk(g, last / 2);
      if pos < last {
        assert NodeOk(h, pos);
      }
    }
  }

  lemma {:induction false} SiftLeftDone(g: seq<Interval>, h: seq<Interval>, last: nat, isFresh: bool, value: Branch,
                                        pos: nat)
    requires SiftingLeft(g, h, last, isFresh, value, pos)
    requires pos > 1 ==> h[pos / 2].left.mindist <= value.mindist
    requires isFresh ==> value.mindist <= g[last / 2].right.mindist
    ensures SiftedLeft(g, WithLeft(h, pos, value), last, isFresh, value)
  {
    var h' := WithLeft(h, pos, value);
    if isFresh && pos == last {
      assert forall i :: 1 <= i < last ==> NodeOk(h, i) && NodeOk(h', i);
    } else {
      SettleLeft(h, last, isFresh, pos, value);
    }
    LeftUpdate(h, pos, value, 2 * last);
    SwapTwice(Contents(h', 2 * last), Contents(h, 2 * last), Contents(g, 2 * last), g[last].left, h[pos].left, value);
  }

  lemma {:induction false} LowerRight(h: seq<Interval>, m: nat, isFresh: bool, pos: nat)
    requires 1 < pos <= m < |h| && OrderedBut(h, m, isFresh)
    ensures OrderedBut(WithRight(h, pos, h[pos / 2].right), m, isFresh)
  {
    var h' := WithRight(h, pos, h[pos / 2].right);
    forall i | 1 <= i <= m && !(isFresh && i == m)
      ensures NodeOk(h', i)
    {
      assert NodeOk(h, i);
      if pos < m {
        assert NodeOk(h, pos);
      }
    }
  }

  lemma {:induction false} SettleRight(h: seq<Interval>, m: nat, isFresh: bool, pos: nat, v: Branch)
    requires 1 <= pos <= m < |h| && OrderedBut(h, m, isFresh) && !(isFresh && pos == m)
    requires h[pos].right.mindist <= v.mindist
    requires pos > 1 ==> v.mindist <= h[pos / 2].right.mindist
    ensures OrderedBut(WithRight(h, pos, v), m, isFresh)
  {
    var h' := WithRight(h, pos, v);
    forall i | 1 <= i <= m && !(isFresh && i == m)
      ensures NodeOk(h', i)
    {
      assert NodeOk(h, i);
    }
  }

  /** The right end of a fresh last node fits between the ends of its parent. */
  ghost predicate FreshRight(g: seq<Interval>, h: seq<Interval>, last: nat)
    requires 1 <= last < |h| && last < |g|
  {
    last > 1 && h[last].right.mindist <= h[last / 2].right.mindist && g[last / 2].left.mindist <= h[last].right.mindist
  }

  /** Where the insertion of value stands: the right end of pos is the hole. */
  ghost predicate SiftingRight(g: seq<Interval>, h: seq<Interval>, last: nat, isFresh: bool, value: Branch, pos: nat) {
    && 1 <= pos <= last < |h| == |g| && h[last].left == g[last].left
    && (isFresh ==> last > 1 && h[last / 2].left == g[last / 2].left)
    && OrderedBut(g, last, isFresh) && OrderedBut(h, last, isFresh)
    && (pos < last || !isFresh ==> h[pos].right.mindist <= value.mindist)
    && (isFresh && pos < last ==> FreshRight(g, h, last))
    && (pos == last ==> h == g)
    && Nodes(2 * last) == last
    && Swapped(Contents(h, 2 * last), Contents(g, 2 * last), g[last].right, h[pos].right)
  }

  /** The value is in place; the ends it passed moved down one step each. */
  ghost predicate SiftedRight(g: seq<Interval>, h: seq<Interval>, last: nat, isFresh: bool, value: Branch) {
    && 1 <= last < |h| == |g| && h[last].left == g[last].left
    && (isFresh ==> last > 1 && h[last / 2].left == g[last / 2].left)
    && OrderedBut(h, last, isFresh)
    && (isFresh ==> FreshRight(g, h, last))
    && Nodes(2 * last) == last
    && Swapped(Contents(h, 2 * last), Contents(g, 2 * last), g[last].right, value)
  }

  lemma {:induction false} SiftRightStep(g: seq<Interval>, h: seq<Interval>, last: nat, isFresh: bool, value: Branch,
                                         pos: nat)
    requires SiftingRight(g, h, last, isFresh, value, pos)
    requires pos > 1 && h[pos / 2].right.mindist < value.mindist
    ensures SiftingRight(g, WithRight(h, pos, h[pos / 2].right), last, isFresh, value, pos / 2)
  {
    var h' := WithRight(h, pos, h[pos / 2].right);
    LowerRight(h, last, isFresh, pos);
    RightUpdate(h, pos, h[pos / 2].right, 2 * last);
    SwapTwice(Contents(h', 2 * last), Contents(h, 2 * last), Contents(g, 2 * last), g[last].right, h[pos].right,
              h[pos / 2].right);
    if isFresh {
      assert NodeOk(g, last / 2);
      if pos < last {
        assert NodeOk(h, pos);
      }
    }
  }

  lemma {:induction false} SiftRightDone(g: seq<Interval>, h: seq<Interval>, last: nat, isFresh: bool, value: Branch,
                                         pos: nat)
    requires SiftingRight(g, h, last, isFresh, value, pos)
    requires pos > 1 ==> value.mindist <= h[pos / 2].right.mindist
    requires isFresh ==> g[last / 2].left.mindist <= value.mindist
    ensures SiftedRight(g, WithRight(h, pos, value), last, isFresh, value)
  {
    var h' := WithRight(h, pos, value);
    if isFresh && pos == last {
      assert forall i :: 1 <= i < last ==> NodeOk(h, i) && NodeOk(h', i);
    } else {
      SettleRight(h, last, isFresh, pos, value);
    }
    RightUpdate(h, pos, value, 2 * last);
    SwapTwice(Contents(h', 2 * last), Contents(h, 2 * last), Contents(g, 2 * last), g[last].right, h[pos].right, value);
  }

  lemma {:induction false} PairedContents(g: seq<Interval>, h: seq<Interval>, m: nat, v: Branch)
    requires 1 <= m < |h| && m < |g| && Nodes(2 * m) == m
    requires Swapped(Contents(h, 2 * m), Contents(g, 2 * m), g[m].right, v)
    ensures Nodes(2 * m - 1) == m && Contents(h, 2 * m) == Contents(g, 2 * m - 1) + multiset{v}
  {
    SlotsOf(g, m);
    SwapFresh(Contents(h, 2 * m), Contents(g, 2 * m - 1), g[m].right, v);
  }

  lemma {:induction false} LowContents(g: seq<Interval>, h: seq<Interval>, n: nat, last: nat, v: Branch)
    requires last == Nodes(n + 1) && 1 <= last < |h| == |g| && h[last].right == g[last].right && Nodes(2 * last) == last
    requires Swapped(Contents(h, 2 * last), Contents(g, 2 * last), g[last].left, v)
    requires n % 2 == 1 ==> g[last].left == g[last].right
    ensures Nodes(n + 1) < |h| && Nodes(n) < |g| && Contents(h, n + 1) == Contents(g, n) + multiset{v}
  {
    LastNode(n, last);
    if n % 2 == 0 {
      LowFresh(g, h, n, last, v);
    } else {
      LowPaired(g, h, n, last, v);
    }
  }

  lemma {:induction false} LowFresh(g: seq<Interval>, h: seq<Interval>, n: nat, m: nat, v: Branch)
    requires n + 1 == 2 * m - 1 && m < |h| && m < |g| && h[m].right == g[m].right && Nodes(2 * m) == m
    requires Swapped(Contents(h, 2 * m), Contents(g, 2 * m), g[m].left, v)
    ensures Nodes(n + 1) < |h| && Nodes(n) < |g| && Contents(h, n + 1) == Contents(g, n) + multiset{v}
  {
    hide Contents, Swapped;
    FreshContents(g, h, m, v);
    SameCount(h, g, n, 2 * m - 1, v);
  }

  lemma {:induction false} LowPaired(g: seq<Interval>, h: seq<Interval>, n: nat, m: nat, v: Branch)
    requires n + 1 == 2 * m && m < |h| && m < |g| && g[m].left == g[m].right && Nodes(2 * m) == m
    requires Swapped(Contents(h, 2 * m), Contents(g, 2 * m), g[m].left, v)
    ensures Nodes(n + 1) < |h| && Nodes(n) < |g| && Contents(h, n + 1) == Contents(g, n) + multiset{v}
  {
    PairedContents(g, h, m, v);
    SameCount(h, g, n, 2 * m, v);
  }

  /** The same contents under another name for the size. */
  lemma {:induction false} SameCount(h: seq<Interval>, g: seq<Interval>, n: nat, k: nat, v: Branch)
    requires k == n + 1 && Nodes(k) < |h| && Nodes(k - 1) < |g| && Contents(h, k) == Contents(g, k - 1) + multiset{v}
    ensures Nodes(n + 1) < |h| && Nodes(n) < |g| && Contents(h, n + 1) == Contents(g, n) + multiset{v}
  {
    hide Contents;
    assert k - 1 == n;
  }

  /** Node m of n + 1 elements, in terms of m. */
  lemma {:induction false} LastNode(n: nat, m: nat)
    requires m == Nodes(n + 1)
    ensures n + 1 == (if n % 2 == 0 then 2 * m - 1 else 2 * m) && Nodes(n) <= m
  {
    NodesParity(n);
  }

  lemma {:induction false} FreshContents(g: seq<Interval>, h: seq<Interval>, m: nat, v: Branch)
    requires 1 <= m < |h| && m < |g| && h[m].right == g[m].right && Nodes(2 * m) == m
    requires Swapped(Contents(h, 2 * m), Contents(g, 2 * m), g[m].left, v)
    ensures Nodes(2 * m - 1) == m && Nodes(2 * m - 2) == m - 1
    ensures Contents(h, 2 * m - 1) == Contents(g, 2 * m - 2) + multiset{v}
  {
    SlotsOf(g, m);
    SlotsOf(h, m);
    SwapBeside(Contents(h, 2 * m - 1), Contents(g, 2 * m - 1), h[m].right, g[m].left, v);
    SwapFresh(Contents(h, 2 * m - 1), Contents(g, 2 * m - 2), g[m].left, v);
  }

  lemma {:induction false} SwapBeside(a: multiset<Branch>, b: multiset<Branch>, r: Branch, x: Branch, v: Branch)
    requires Swapped(a + multiset{r}, b + multiset{r}, x, v)
    ensures Swapped(a, b, x, v)
  {
    forall y
      ensures a[y] + (if y == x then 1 else 0) == b[y] + if y == v then 1 else 0
    {
      assert (a + multiset{r})[y] == a[y] + multiset{r}[y] && (b + multiset{r})[y] == b[y] + multiset{r}[y];
    }
  }

  lemma {:induction false} DoubledContents(g: seq<Interval>, h: seq<Interval>, m: nat, v: Branch)
    requires 1 <= m < |h| && m < |g| && h[m].left == g[m].left && Nodes(2 * m) == m
    requires Swapped(Contents(h, 2 * m), Contents(g, 2 * m), g[m].right, v)
    ensures Nodes(2 * m - 1) == m && Nodes(2 * m - 2) == m - 1
    ensures Contents(WithLeft(h, m, h[m].right), 2 * m - 1) == Contents(g, 2 * m - 2) + multiset{v}
  {
    var h' := WithLeft(h, m, h[m].right);
    SlotsOf(g, m);
    SlotsOf(h, m);
    SlotsOf(h', m);
    SameUpToLast(h, h', m);
    SwapPair(Contents(h, 2 * m - 2), Contents(g, 2 * m - 2), g[m].left, g[m].right, h[m].right, v);
  }

  lemma {:induction false} LowInserted(g: seq<Interval>, h: seq<Interval>, h': seq<Interval>, n: nat, v: Branch)
    requires n >= 2 && GoodHeap(g, n) && Nodes(n + 1) < |g|
    requires SiftedLeft(g, h, Nodes(n + 1), n % 2 == 0, v)
    requires h' == if n % 2 == 0 then WithRight(h, Nodes(n + 1), h[Nodes(n + 1)].left) else h
    ensures GoodHeap(h', n + 1) && Contents(h', n + 1) == Contents(g, n) + multiset{v}
  {
    NodesParity(n);
    var m := Nodes(n + 1);
    LowContents(g, h, n, m, v);
    SameUpToLast(h, h', m);
    DoubledOrder(h, h', m, n % 2 == 0);
  }

  lemma {:induction false} HighContents(g: seq<Interval>, h: seq<Interval>, h': seq<Interval>, n: nat, m: nat,
                                        v: Branch)
    requires m == Nodes(n + 1) && 1 <= m < |h| == |g| && h[m].left == g[m].left && Nodes(2 * m) == m
    requires Swapped(Contents(h, 2 * m), Contents(g, 2 * m), g[m].right, v)
    requires h' == if n % 2 == 0 then WithLeft(h, m, h[m].right) else h
    ensures Nodes(n + 1) < |h'| && Nodes(n) < |g| && Contents(h', n + 1) == Contents(g, n) + multiset{v}
  {
    LastNode(n, m);
    if n % 2 == 0 {
      HighFresh(g, h, n, m, v);
    } else {
      HighPaired(g, h, n, m, v);
    }
  }

  lemma {:induction false} HighFresh(g: seq<Interval>, h: seq<Interval>, n: nat, m: nat, v: Branch)
    requires n + 1 == 2 * m - 1 && m < |h| && m < |g| && h[m].left == g[m].left && Nodes(2 * m) == m
    requires Swapped(Contents(h, 2 * m), Contents(g, 2 * m), g[m].right, v)
    ensures Nodes(n + 1) < |h| && Nodes(n) < |g|
    ensures Contents(WithLeft(h, m, h[m].right), n + 1) == Contents(g, n) + multiset{v}
  {
    hide Contents, Swapped;
    DoubledContents(g, h, m, v);
    SameCount(WithLeft(h, m, h[m].right), g, n, 2 * m - 1, v);
  }

  lemma {:induction false} HighPaired(g: seq<Interval>, h: seq<Interval>, n: nat, m: nat, v: Branch)
    requires n + 1 == 2 * m && m < |h| && m < |g| && Nodes(2 * m) == m
    requires Swapped(Contents(h, 2 * m), Contents(g, 2 * m), g[m].right, v)
    ensures Nodes(n + 1) < |h| && Nodes(n) < |g| && Contents(h, n + 1) == Contents(g, n) + multiset{v}
  {
    PairedContents(g, h, m, v);
    SameCount(h, g, n, 2 * m, v);
  }

  lemma {:induction false} HighInserted(g: seq<Interval>, h: seq<Interval>, h': seq<Interval>, n: nat, v: Branch)
    requires n >= 2 && GoodHeap(g, n) && Nodes(n + 1) < |g|
    requires SiftedRight(g, h, Nodes(n + 1), n % 2 == 0, v)
    requires h' == if n % 2 == 0 then WithLeft(h, Nodes(n + 1), h[Nodes(n + 1)].right) else h
    ensures GoodHeap(h', n + 1) && Contents(h', n + 1) == Contents(g, n) + multiset{v}
  {
    var m := Nodes(n + 1);
    NodesParity(n);
    HighContents(g, h, h', n, m, v);
    DoubledOrder(h, h', m, n % 2 == 0);
  }

  /** A last node with equal ends inside the parent interval completes the order. */
  lemma {:induction false} DoubledOrder(h: seq<Interval>, h': seq<Interval>, m: nat, isFresh: bool)
    requires 1 <= m < |h| == |h'| && OrderedBut(h, m, isFresh)
    requires forall i :: 1 <= i < m ==> h'[i] == h[i]
    requires !isFresh ==> h' == h
    requires isFresh ==> m > 1 && h'[m].left == h'[m].right
    requires isFresh ==> h[m / 2].left.mindist <= h'[m].left.mindist <= h[m / 2].right.mindist
    ensures OrderedBut(h', m, false)
  {
    forall i | 1 <= i <= m
      ensures NodeOk(h', i)
    {
      assert i < m || !isFresh ==> NodeOk(h, i);
    }
  }

  lemma {:induction false} LowStart(h: seq<Interval>, n: nat, last: nat, value: Branch)
    requires n >= 2 && GoodHeap(h, n) && last == Nodes(n + 1) < |h|
    requires value.mindist < h[if n % 2 == 1 then last else last / 2].left.mindist
    ensures SiftingLeft(h, h, last, n % 2 == 0, value, last)
    ensures n % 2 == 0 ==> value.mindist <= h[last / 2].right.mindist
  {
    NodesParity(n);
    if n % 2 == 0 {
      assert NodeOk(h, last / 2);
    }
  }

  lemma {:induction false} HighStart(h: seq<Interval>, n: nat, last: nat, value: Branch)
    requires n >= 2 && GoodHeap(h, n) && last == Nodes(n + 1) < |h|
    requires h[if n % 2 == 1 then last else last / 2].left.mindist <= value.mindist
    ensures SiftingRight(h, h, last, n % 2 == 0, value, last)
    ensures n % 2 == 0 ==> h[last / 2].left.mindist <= value.mindist
  {
    NodesParity(n);
  }

  /** The root after a first or second element. */
  ghost function RootWith(h: seq<Interval>, n: nat, v: Branch): seq<Interval>
    requires |h| > 1
  {
    if n == 0 then h[1 := Interval(v, v)]
    else if v.mindist < h[1].left.mindist then h[1 := h[1].(left := v)]
    else h[1 := h[1].(right := v)]
  }

  lemma {:induction false} RootInserted(h: seq<Interval>, n: nat, v: Branch)
    requires n < 2 && |h| > 1 && GoodHeap(h, n)
    ensures GoodHeap(RootWith(h, n, v), n + 1)
    ensures Contents(RootWith(h, n, v), n + 1) == Contents(h, n) + multiset{v}
  {
    RootContents(h);
    RootContents(RootWith(h, n, v));
    hide Contents;
    if n == 1 {
      assert NodeOk(h, 1);
    }
  }

  lemma {:induction false} RootContents(h: seq<Interval>)
    requires |h| > 1
    ensures Nodes(0) == 0 && Nodes(1) == Nodes(2) == 1
    ensures Contents(h, 0) == multiset{} && Contents(h, 1) == multiset{h[1].left}
    ensures Contents(h, 2) == multiset{h[1].left} + multiset{h[1].right}
  {
    SlotsOf(h, 1);
  }

  /** The element in hand together with the heap, against the heap the descent began with. */
  ghost predicate Balanced(a: multiset<Branch>, e: Branch, hole: Branch, b: multiset<Branch>, e0: Branch,
                           hole0: Branch) {
    forall x ::
      a[x] + (if x == e then 1 else 0) + (if x == hole0 then 1 else 0) ==
      b[x] + (if x == e0 then 1 else 0) + (if x == hole then 1 else 0)
  }

  lemma BalanceStep(a: multiset<Branch>, a1: multiset<Branch>, a2: multiset<Branch>,
                                       b: multiset<Branch>,
                    e: Branch, e2: Branch, hole: Branch, hole2: Branch, e0: Branch, hole0: Branch)
    requires Balanced(a, e, hole, b, e0, hole0)
    requires Swapped(a1, a, hole, hole2)
    requires (a2 == a1 && e2 == e) || Swapped(a2, a1, e2, e)
    ensures Balanced(a2, e2, hole2, b, e0, hole0)
  {
  }

  lemma BalanceDone(a: multiset<Branch>, a1: multiset<Branch>, b: multiset<Branch>, e: Branch,
                                       hole: Branch, e0: Branch, hole0: Branch)
    requires Balanced(a, e, hole, b, e0, hole0) && Swapped(a1, a, hole, e)
    ensures Swapped(a1, b, hole0, e0)
  {
  }

  /** Before the last node of an odd heap both ends of a node are counted. */
  lemma {:induction false} CountedBefore(n: nat, i: nat)
    requires 1 <= i <= Nodes(n) && (n % 2 == 1 ==> i < Nodes(n))
    ensures 2 * i <= n
  {
    NodesParity(n);
  }

  /** c is the child of crt with the least left end. */
  ghost predicate LeastChild(h: seq<Interval>, m: nat, crt: nat, c: nat)
    requires m < |h|
  {
    && (c == 2 * crt || c == 2 * crt + 1) && 1 <= c <= m
    && (2 * crt <= m ==> h[c].left.mindist <= h[2 * crt].left.mindist)
    && (2 * crt + 1 <= m ==> h[c].left.mindist <= h[2 * crt + 1].left.mindist)
  }

  /** One level of the descent: the child's left end rises, its right end may be traded for e. */
  function SunkLeft(h: seq<Interval>, crt: nat, c: nat, e: Branch): seq<Interval>
    requires crt < |h| && c < |h|
  {
    var h1 := WithLeft(h, crt, h[c].left);
    if h[c].right.mindist < e.mindist then WithRight(h1, c, e) else h1
  }

  /** The left end of crt is the hole; e is in hand. */
  ghost predicate SinkingLeft(g: seq<Interval>, h: seq<Interval>, n: nat, crt: nat, elem: Branch, e: Branch) {
    && |h| == |g| && GoodHeap(h, n) && 1 <= crt <= Nodes(n)
    && h[crt].left.mindist <= e.mindist <= h[crt].right.mindist
    && (n % 2 == 1 ==> crt < Nodes(n) && e.mindist <= h[Nodes(n)].left.mindist)
    && Balanced(Contents(h, n), e, h[crt].left, Contents(g, n), elem, g[1].left)
  }

  lemma {:induction false} SinkLeftOrder(h: seq<Interval>, m: nat, crt: nat, c: nat, e: Branch)
    requires 1 <= crt < m < |h| && OrderedBut(h, m, false) && LeastChild(h, m, crt, c)
    requires h[crt].left.mindist <= e.mindist <= h[crt].right.mindist && h[c].left.mindist < e.mindist
    ensures OrderedBut(SunkLeft(h, crt, c, e), m, false)
  {
    var h' := SunkLeft(h, crt, c, e);
    assert NodeOk(h, c);
    forall i | 1 <= i <= m
      ensures NodeOk(h', i)
    {
      assert NodeOk(h, i);
      if i / 2 == crt && i > 1 {
        assert i == 2 * crt || i == 2 * crt + 1;
      }
    }
  }

  lemma {:induction false} SinkLeftContents(g: seq<Interval>, h: seq<Interval>, n: nat, crt: nat, c: nat, elem: Branch,
                                            e: Branch)
    requires SinkingLeft(g, h, n, crt, elem, e) && crt < c <= Nodes(n) && 2 * c <= n
    ensures Balanced(Contents(SunkLeft(h, crt, c, e), n),
                     if h[c].right.mindist < e.mindist then h[c].right else e, h[c].left, Contents(g, n), elem,
                         g[1].left)
  {
    var h1 := WithLeft(h, crt, h[c].left);
    var h2 := SunkLeft(h, crt, c, e);
    var e2 := if h[c].right.mindist < e.mindist then h[c].right else e;
    LeftUpdate(h, crt, h[c].left, n);
    RightUpdate(h1, c, e, n);
    BalanceStep(Contents(h, n), Contents(h1, n), Contents(h2, n), Contents(g, n), e, e2, h[crt].left, h[c].left, elem,
                g[1].left);
  }

  lemma {:induction false} SinkLeftStep(g: seq<Interval>, h: seq<Interval>, n: nat, crt: nat, c: nat, elem: Branch,
                                        e: Branch)
    requires SinkingLeft(g, h, n, crt, elem, e)
    requires LeastChild(h, Nodes(n), crt, c) && h[c].left.mindist < e.mindist
    ensures SinkingLeft(g, SunkLeft(h, crt, c, e), n, c, elem, if h[c].right.mindist < e.mindist then h[c].right else e)
  {
    CountedBefore(n, c);
    SinkLeftOrder(h, Nodes(n), crt, c, e);
    assert NodeOk(h, c);
    SinkLeftContents(g, h, n, crt, c, elem, e);
  }

  lemma {:induction false} SinkLeftDone(g: seq<Interval>, h: seq<Interval>, n: nat, crt: nat, elem: Branch, e: Branch)
    requires SinkingLeft(g, h, n, crt, elem, e)
    requires 2 * crt <= Nodes(n) ==> e.mindist <= h[2 * crt].left.mindist
    requires 2 * crt + 1 <= Nodes(n) ==> e.mindist <= h[2 * crt + 1].left.mindist
    ensures GoodHeap(WithLeft(h, crt, e), n)
    ensures Swapped(Contents(WithLeft(h, crt, e), n), Contents(g, n), g[1].left, elem)
  {
    var h' := WithLeft(h, crt, e);
    CountedBefore(n, crt);
    LeftUpdate(h, crt, e, n);
    BalanceDone(Contents(h, n), Contents(h', n), Contents(g, n), e, h[crt].left, elem, g[1].left);
    forall i | 1 <= i <= Nodes(n)
      ensures NodeOk(h', i)
    {
      assert NodeOk(h, i);
      if i / 2 == crt && i > 1 {
        assert i == 2 * crt || i == 2 * crt + 1;
      }
    }
  }

  /** c is the child of crt with the greatest right end. */
  ghost predicate GreatestChild(h: seq<Interval>, m: nat, crt: nat, c: nat)
    requires m < |h|
  {
    && (c == 2 * crt || c == 2 * crt + 1) && 1 <= c <= m
    && (2 * crt <= m ==> h[2 * crt].right.mindist <= h[c].right.mindist)
    && (2 * crt + 1 <= m ==> h[2 * crt + 1].right.mindist <= h[c].right.mindist)
  }

  /** One level of the descent: the child's right end rises, its left end may be traded for e. */
  function SunkRight(h: seq<Interval>, crt: nat, c: nat, e: Branch): seq<Interval>
    requires crt < |h| && c < |h|
  {
    var h1 := WithRight(h, crt, h[c].right);
    if e.mindist < h[c].left.mindist then WithLeft(h1, c, e) else h1
  }

  /** The right end of crt is the hole; e is in hand. */
  ghost predicate SinkingRight(g: seq<Interval>, h: seq<Interval>, n: nat, crt: nat, elem: Branch, e: Branch) {
    && |h| == |g| && GoodHeap(h, n) && 1 <= crt <= Nodes(n)
    && h[crt].left.mindist <= e.mindist <= h[crt].right.mindist
    && (n % 2 == 1 ==> crt < Nodes(n) && h[Nodes(n)].right.mindist <= e.mindist)
    && Balanced(Contents(h, n), e, h[crt].right, Contents(g, n), elem, g[1].right)
  }

  lemma {:induction false} SinkRightOrder(h: seq<Interval>, m: nat, crt: nat, c: nat, e: Branch)
    requires 1 <= crt < m < |h| && OrderedBut(h, m, false) && GreatestChild(h, m, crt, c)
    requires h[crt].left.mindist <= e.mindist <= h[crt].right.mindist && e.mindist < h[c].right.mindist
    ensures OrderedBut(SunkRight(h, crt, c, e), m, false)
  {
    var h' := SunkRight(h, crt, c, e);
    assert NodeOk(h, c);
    forall i | 1 <= i <= m
      ensures NodeOk(h', i)
    {
      assert NodeOk(h, i);
      if i / 2 == crt && i > 1 {
        assert i == 2 * crt || i == 2 * crt + 1;
      }
    }
  }

  lemma {:induction false} SinkRightContents(g: seq<Interval>, h: seq<Interval>, n: nat, crt: nat, c: nat,
                                             elem: Branch, e: Branch)
    requires SinkingRight(g, h, n, crt, elem, e) && crt < c <= Nodes(n) && 2 * c <= n
    ensures Balanced(Contents(SunkRight(h, crt, c, e), n),
                     if e.mindist < h[c].left.mindist then h[c].left else e, h[c].right, Contents(g, n), elem,
                         g[1].right)
  {
    var h1 := WithRight(h, crt, h[c].right);
    var h2 := SunkRight(h, crt, c, e);
    var e2 := if e.mindist < h[c].left.mindist then h[c].left else e;
    RightUpdate(h, crt, h[c].right, n);
    LeftUpdate(h1, c, e, n);
    BalanceStep(Contents(h, n), Contents(h1, n), Contents(h2, n), Contents(g, n), e, e2, h[crt].right, h[c].right,
                elem, g[1].right);
  }

  lemma {:induction false} SinkRightStep(g: seq<Interval>, h: seq<Interval>, n: nat, crt: nat, c: nat, elem: Branch,
                                         e: Branch)
    requires SinkingRight(g, h, n, crt, elem, e)
    requires GreatestChild(h, Nodes(n), crt, c) && e.mindist < h[c].right.mindist
    ensures SinkingRight(g, SunkRight(h, crt, c, e), n, c, elem, if e.mindist < h[c].left.mindist then h[c].left else e)
  {
    CountedBefore(n, c);
    SinkRightOrder(h, Nodes(n), crt, c, e);
    assert NodeOk(h, c);
    SinkRightContents(g, h, n, crt, c, elem, e);
  }

  lemma {:induction false} SinkRightDone(g: seq<Interval>, h: seq<Interval>, n: nat, crt: nat, elem: Branch, e: Branch)
    requires SinkingRight(g, h, n, crt, elem, e)
    requires 2 * crt <= Nodes(n) ==> h[2 * crt].right.mindist <= e.mindist
    requires 2 * crt + 1 <= Nodes(n) ==> h[2 * crt + 1].right.mindist <= e.mindist
    ensures GoodHeap(WithRight(h, crt, e), n)
    ensures Swapped(Contents(WithRight(h, crt, e), n), Contents(g, n), g[1].right, elem)
  {
    var h' := WithRight(h, crt, e);
    CountedBefore(n, crt);
    RightUpdate(h, crt, e, n);
    BalanceDone(Contents(h, n), Contents(h', n), Contents(g, n), e, h[crt].right, elem, g[1].right);
    forall i | 1 <= i <= Nodes(n)
      ensures NodeOk(h', i)
    {
      assert NodeOk(h, i);
      if i / 2 == crt && i > 1 {
        assert i == 2 * crt || i == 2 * crt + 1;
      }
    }
  }

  /** Taking the last element out keeps the order; its end in hand fits under the root. */
  lemma {:induction false} DropOrder(g: seq<Interval>, h: seq<Interval>, n: nat)
    requires n >= 1 && GoodHeap(g, n)
    requires var m := Nodes(n);
      if n % 2 == 1 then h == g else h == WithLeft(g, m, g[m].right) || h == WithRight(g, m, g[m].left)
    ensures GoodHeap(h, n - 1)
    ensures n >= 3 ==> 1 < Nodes(n) && h[1] == g[1] && 1 <= Nodes(n - 1) && (n % 2 == 0 ==> 1 < Nodes(n - 1))
    ensures n < 3 ==> Nodes(n) == 1
    ensures NodeOk(g, Nodes(n))
    ensures n >= 3 ==> h[1].left.mindist <= g[Nodes(n)].left.mindist && g[Nodes(n)].right.mindist <= h[1].right.mindist
  {
    NodesParity(n);
    NodesParity(n - 1);
    RootEncloses(g, Nodes(n), Nodes(n));
    forall i | 1 <= i <= Nodes(n - 1)
      ensures NodeOk(h, i)
    {
      assert NodeOk(g, i);
    }
  }

  lemma {:induction false} DropLeft(g: seq<Interval>, h: seq<Interval>, n: nat)
    requires n >= 1 && GoodHeap(g, n)
    requires h == if n % 2 == 1 then g else WithLeft(g, Nodes(n), g[Nodes(n)].right)
    ensures GoodHeap(h, n - 1) && Contents(h, n - 1) + multiset{g[Nodes(n)].left} == Contents(g, n)
    ensures n >= 3 ==> SinkingLeft(h, h, n - 1, 1, g[Nodes(n)].left, g[Nodes(n)].left) && h[1].left == g[1].left
    ensures n < 3 ==> Nodes(n) == 1
  {
    var m := Nodes(n);
    NodesParity(n);
    NodesParity(n - 1);
    DropOrder(g, h, n);
    SlotsOf(g, m);
    if n % 2 == 0 {
      SlotsOf(h, m);
      SameUpToLast(g, h, m);
      Commute(Contents(g, n - 2), g[m].left, g[m].right);
    }
  }

  lemma Commute(a: multiset<Branch>, x: Branch, y: Branch)
    ensures a + multiset{x} + multiset{y} == a + multiset{y} + multiset{x}
  {
  }

  lemma {:induction false} DropRight(g: seq<Interval>, h: seq<Interval>, n: nat)
    requires n >= 1 && GoodHeap(g, n)
    requires h == if n % 2 == 1 then g else WithRight(g, Nodes(n), g[Nodes(n)].left)
    ensures GoodHeap(h, n - 1) && Contents(h, n - 1) + multiset{g[Nodes(n)].right} == Contents(g, n)
    ensures n >= 3 ==> SinkingRight(h, h, n - 1, 1, g[Nodes(n)].right, g[Nodes(n)].right) && h[1].right == g[1].right
    ensures n < 3 ==> Nodes(n) == 1
  {
    var m := Nodes(n);
    NodesParity(n);
    NodesParity(n - 1);
    DropOrder(g, h, n);
    SlotsOf(g, m);
    if n % 2 == 0 {
      SameUpToLast(g, h, m);
    }
  }

  class IntervalHeap {
    const capacity: nat
    var size: nat
    var heap: seq<Interval>
    ghost var elements: multiset<Branch>  // the elements held

    ghost predicate Valid()
      reads this
    {
      && size <= capacity && |heap| == capacity / 2 + capacity % 2 + 1
      && GoodHeap(heap, size) && elements == Contents(heap, size)
    }

    constructor (capacity: nat)
      ensures Valid() && this.capacity == capacity && elements == multiset{}
    {
      this.capacity := capacity;
      size := 0;
      elements := multiset{};
      var blank := Branch(0, 0);
      heap := seq(capacity / 2 + capacity % 2 + 1, _ => Interval(blank, blank));
    }

    method Clear()
      requires Valid()
      modifies `size, `elements
      ensures Valid() && elements == multiset{}
    {
      size := 0;
      elements := multiset{};
    }

    /** A full heap drops the value; any other gains exactly it. */
    method Insert(value: Branch)
      requires Valid()
      modifies this
      ensures Valid()
      ensures size == if old(size) == capacity then old(size) else old(size) + 1
      ensures elements == if old(size) == capacity then old(elements) else old(elements) + multiset{value}
    {
      if size == capacity {
        return;
      }
      if size < 2 {
        InsertRoot(value);
        return;
      }
      InsertBelow(value);
    }

    /** The first two elements share the root. */
    method InsertRoot(value: Branch)
      requires Valid() && size < 2 && size < capacity
      modifies this
      ensures Valid() && size == old(size) + 1 && elements == old(elements) + multiset{value}
    {
      RootInserted(heap, size, value);
      if size == 0 {
        heap := heap[1 := Interval(value, value)];
      } else {
        if value.mindist < heap[1].left.mindist {
          heap := heap[1 := heap[1].(left := value)];
        } else {
          heap := heap[1 := heap[1].(right := value)];
        }
      }
      size := size + 1;
      elements := elements + multiset{value};
    }

    method InsertBelow(value: Branch)
      requires Valid() && 2 <= size < capacity
      modifies this
      ensures Valid() && size == old(size) + 1 && elements == old(elements) + multiset{value}
    {
      var last := size / 2 + size % 2;
      var minHeap: bool;
      if size % 2 == 1 {
        minHeap := value.mindist < heap[last].left.mindist;
      } else {
        last := last + 1;
        minHeap := value.mindist < heap[last / 2].left.mindist;
      }
      if minHeap {
        InsertLow(last, value);
      } else {
        InsertHigh(last, value);
      }
    }

    /** The value belongs on a left end. */
    method InsertLow(last: nat, value: Branch)
      requires Valid() && 2 <= size < capacity && last == Nodes(size + 1)
      requires value.mindist < heap[if size % 2 == 1 then last else last / 2].left.mindist
      modifies this
      ensures Valid() && size == old(size) + 1 && elements == old(elements) + multiset{value}
    {
      PlaceLow(last, value);
      elements := elements + multiset{value};
    }

    method PlaceLow(last: nat, value: Branch)
      requires size >= 2 && GoodHeap(heap, size) && last == Nodes(size + 1) < |heap|
      requires value.mindist < heap[if size % 2 == 1 then last else last / 2].left.mindist
      modifies `heap, `size
      ensures size == old(size) + 1 && |heap| == |old(heap)| && GoodHeap(heap, size)
      ensures Contents(heap, size) == old(Contents(heap, size)) + multiset{value}
    {
      hide Contents, GoodHeap, SiftedLeft, SiftingLeft;
      ghost var g, n := heap, size;
      LowStart(g, n, last, value);
      SiftUpLeft(last, value, n % 2 == 0);
      ghost var h := heap;
      size := size + 1;
      DuplicateLeft(last);
      LowInserted(g, h, heap, n, value);
    }

    /** Moves left ends down the path from last to the place of value. */
    method SiftUpLeft(last: nat, value: Branch, ghost isFresh: bool)
      requires SiftingLeft(heap, heap, last, isFresh, value, last)
      requires isFresh ==> value.mindist <= heap[last / 2].right.mindist
      modifies `heap
      ensures SiftedLeft(old(heap), heap, last, isFresh, value)
    {
      var pos := last;
      var par := pos / 2;
      while pos > 1 && value.mindist < heap[par].left.mindist
        invariant 1 <= pos <= last && par == pos / 2
        invariant SiftingLeft(old(heap), heap, last, isFresh, value, pos)
      {
        SiftLeftStep(old(heap), heap, last, isFresh, value, pos);
        heap := heap[pos := heap[pos].(left := heap[par].left)];
        pos := par;
        par := pos / 2;
      }
      SiftLeftDone(old(heap), heap, last, isFresh, value, pos);
      heap := heap[pos := heap[pos].(left := value)];
    }

    /** The odd element out is stored on both ends of the last node. */
    method DuplicateLeft(last: nat)
      requires last < |heap|
      modifies `heap
      ensures heap == if size % 2 == 1 then WithRight(old(heap), last, old(heap)[last].left) else old(heap)
    {
      if size % 2 == 1 {
        heap := heap[last := heap[last].(right := heap[last].left)];
      }
    }

    /** Removes and returns a least element. */
    method PopMin() returns (ok: bool, value: Branch)
      requires Valid()
      modifies this
      ensures Valid() && ok == (old(size) > 0)
      ensures !ok ==> size == 0 && elements == old(elements)
      ensures ok ==> size == old(size) - 1 && old(elements) == elements + multiset{value}
      ensures ok ==> forall x :: x in old(elements) ==> value.mindist <= x.mindist
    {
      if size == 0 {
        return false, Branch(0, 0);
      }
      RootIsExtreme(heap, size);
      ok, value := true, heap[1].left;
      RemoveMin();
    }

    /** Takes the left end of the root out; the last element takes its place and sinks. */
    method RemoveMin()
      requires Valid() && size > 0
      modifies this
      ensures Valid() && size == old(size) - 1 && old(elements) == elements + multiset{old(heap)[1].left}
    {
      hide Contents, OrderedBut, SinkingLeft, Swapped;
      ghost var value := heap[1].left;
      var last, elem := DropLastLeft();
      ghost var h := heap;
      if size >= 2 {
        SiftDownLeft(last, elem);
        SwapBack(Contents(heap, size), Contents(h, size), elem, value);
      }
      elements := Contents(heap, size);
    }

    /** Takes the last element out, its left end in hand. */
    method DropLastLeft() returns (last: nat, elem: Branch)
      requires Valid() && size > 0
      modifies `size, `heap
      ensures size == old(size) - 1 && |heap| == |old(heap)| && GoodHeap(heap, size) && last == Nodes(size)
      ensures Contents(heap, size) + multiset{elem} == old(Contents(heap, size))
      ensures size >= 2 ==> SinkingLeft(heap, heap, size, 1, elem, elem) && heap[1].left == old(heap)[1].left
      ensures size < 2 ==> elem == old(heap)[1].left
    {
      hide Contents, GoodHeap, SinkingLeft;
      last := size / 2 + size % 2;
      elem := heap[last].left;
      CopyBackLeft(last);
      DropLeft(old(heap), heap, size);
      NodesParity(size - 1);
      if size % 2 == 1 {
        last := last - 1;
      }
      size := size - 1;
    }

    /** A full last node keeps its other element, on both ends. */
    method CopyBackLeft(last: nat)
      requires last < |heap|
      modifies `heap
      ensures heap == if size % 2 == 1 then old(heap) else WithLeft(old(heap), last, old(heap)[last].right)
    {
      if size % 2 == 0 {
        heap := heap[last := heap[last].(left := heap[last].right)];
      }
    }

    method SiftDownLeft(last: nat, elem: Branch)
      requires last == Nodes(size) && SinkingLeft(heap, heap, size, 1, elem, elem)
      modifies `heap
      ensures |heap| == |old(heap)| && GoodHeap(heap, size)
      ensures Swapped(Contents(heap, size), old(Contents(heap, size)), old(heap)[1].left, elem)
    {
      ghost var g := heap;
      var e := elem;
      var crt := 1;
      var child := crt * 2;
      while child <= last
        invariant child == 2 * crt && SinkingLeft(g, heap, size, crt, elem, e)
        decreases last - crt
      {
        if child < last && heap[child + 1].left.mindist < heap[child].left.mindist {
          child := child + 1;
        }
        if !(heap[child].left.mindist < e.mindist) {
          break;
        }
        SinkLeftStep(g, heap, size, crt, child, elem, e);
        e := SinkLeft(crt, child, e);
        crt := child;
        child := child * 2;
      }
      SinkLeftDone(g, heap, size, crt, elem, e);
      heap := heap[crt := heap[crt].(left := e)];
    }

    /** One level of the descent; e goes on with the element in hand. */
    method SinkLeft(crt: nat, child: nat, elem: Branch) returns (e: Branch)
      requires crt < child < |heap|
      modifies `heap
      ensures heap == SunkLeft(old(heap), crt, child, elem)
      ensures e == if old(heap)[child].right.mindist < elem.mindist then old(heap)[child].right else elem
    {
      e := elem;
      heap := heap[crt := heap[crt].(left := heap[child].left)];
      if heap[child].right.mindist < e.mindist {
        var other := heap[child].right;
        heap := heap[child := heap[child].(right := e)];
        e := other;
      }
    }

    method GetMin() returns (ok: bool, value: Branch)
      requires Valid()
      ensures ok == (size > 0)
      ensures ok ==> value in elements && forall x :: x in elements ==> value.mindist <= x.mindist
    {
      if size == 0 {
        return false, Branch(0, 0);
      }
      RootIsExtreme(heap, size);
      return true, heap[1].left;
    }

    /** The value belongs on a right end. */
    method InsertHigh(last: nat, value: Branch)
      requires Valid() && 2 <= size < capacity && last == Nodes(size + 1)
      requires heap[if size % 2 == 1 then last else last / 2].left.mindist <= value.mindist
      modifies this
      ensures Valid() && size == old(size) + 1 && elements == old(elements) + multiset{value}
    {
      PlaceHigh(last, value);
      elements := elements + multiset{value};
    }

    method PlaceHigh(last: nat, value: Branch)
      requires size >= 2 && GoodHeap(heap, size) && last == Nodes(size + 1) < |heap|
      requires heap[if size % 2 == 1 then last else last / 2].left.mindist <= value.mindist
      modifies `heap, `size
      ensures size == old(size) + 1 && |heap| == |old(heap)| && GoodHeap(heap, size)
      ensures Contents(heap, size) == old(Contents(heap, size)) + multiset{value}
    {
      hide Contents, GoodHeap, SiftedRight, SiftingRight;
      ghost var g, n := heap, size;
      HighStart(g, n, last, value);
      SiftUpRight(last, value, n % 2 == 0);
      ghost var h := heap;
      size := size + 1;
      DuplicateRight(last);
      HighInserted(g, h, heap, n, value);
    }

    /** Moves right ends down the path from last to the place of value. */
    method SiftUpRight(last: nat, value: Branch, ghost isFresh: bool)
      requires SiftingRight(heap, heap, last, isFresh, value, last)
      requires isFresh ==> heap[last / 2].left.mindist <= value.mindist
      modifies `heap
      ensures SiftedRight(old(heap), heap, last, isFresh, value)
    {
      var pos := last;
      var par := pos / 2;
      while pos > 1 && heap[par].right.mindist < value.mindist
        invariant 1 <= pos <= last && par == pos / 2
        invariant SiftingRight(old(heap), heap, last, isFresh, value, pos)
      {
        SiftRightStep(old(heap), heap, last, isFresh, value, pos);
        heap := heap[pos := heap[pos].(right := heap[par].right)];
        pos := par;
        par := pos / 2;
      }
      SiftRightDone(old(heap), heap, last, isFresh, value, pos);
      heap := heap[pos := heap[pos].(right := value)];
    }

    /** The odd element out is stored on both ends of the last node. */
    method DuplicateRight(last: nat)
      requires last < |heap|
      modifies `heap
      ensures heap == if size % 2 == 1 then WithLeft(old(heap), last, old(heap)[last].right) else old(heap)
    {
      if size % 2 == 1 {
        heap := heap[last := heap[last].(left := heap[last].right)];
      }
    }

    /** Removes and returns a greatest element. */
    method PopMax() returns (ok: bool, value: Branch)
      requires Valid()
      modifies this
      ensures Valid() && ok == (old(size) > 0)
      ensures !ok ==> size == 0 && elements == old(elements)
      ensures ok ==> size == old(size) - 1 && old(elements) == elements + multiset{value}
      ensures ok ==> forall x :: x in old(elements) ==> x.mindist <= value.mindist
    {
      if size == 0 {
        return false, Branch(0, 0);
      }
      RootIsExtreme(heap, size);
      ok, value := true, heap[1].right;
      RemoveMax();
    }

    /** Takes the right end of the root out; the last element takes its place and sinks. */
    method RemoveMax()
      requires Valid() && size > 0
      modifies this
      ensures Valid() && size == old(size) - 1 && old(elements) == elements + multiset{old(heap)[1].right}
    {
      hide Contents, OrderedBut, SinkingRight, Swapped;
      ghost var value := heap[1].right;
      var last, elem := DropLastRight();
      ghost var h := heap;
      if size >= 2 {
        SiftDownRight(last, elem);
        SwapBack(Contents(heap, size), Contents(h, size), elem, value);
      }
      elements := Contents(heap, size);
    }

    /** Takes the last element out, its right end in hand. */
    method DropLastRight() returns (last: nat, elem: Branch)
      requires Valid() && size > 0
      modifies `size, `heap
      ensures size == old(size) - 1 && |heap| == |old(heap)| && GoodHeap(heap, size) && last == Nodes(size)
      ensures Contents(heap, size) + multiset{elem} == old(Contents(heap, size))
      ensures size >= 2 ==> SinkingRight(heap, heap, size, 1, elem, elem) && heap[1].right == old(heap)[1].right
      ensures size < 2 ==> elem == old(heap)[1].right
    {
      hide Contents, GoodHeap, SinkingRight;
      last := size / 2 + size % 2;
      elem := heap[last].right;
      CopyBackRight(last);
      DropRight(old(heap), heap, size);
      NodesParity(size - 1);
      if size % 2 == 1 {
        last := last - 1;
      }
      size := size - 1;
    }

    /** A full last node keeps its other element, on both ends. */
    method CopyBackRight(last: nat)
      requires last < |heap|
      modifies `heap
      ensures heap == if size % 2 == 1 then old(heap) else WithRight(old(heap), last, old(heap)[last].left)
    {
      if size % 2 == 0 {
        heap := heap[last := heap[last].(right := heap[last].left)];
      }
    }

    method SiftDownRight(last: nat, elem: Branch)
      requires last == Nodes(size) && SinkingRight(heap, heap, size, 1, elem, elem)
      modifies `heap
      ensures |heap| == |old(heap)| && GoodHeap(heap, size)
      ensures Swapped(Contents(heap, size), old(Contents(heap, size)), old(heap)[1].right, elem)
    {
      ghost var g := heap;
      var e := elem;
      var crt := 1;
      var child := crt * 2;
      while child <= last
        invariant child == 2 * crt && SinkingRight(g, heap, size, crt, elem, e)
        decreases last - crt
      {
        if child < last && heap[child].right.mindist < heap[child + 1].right.mindist {
          child := child + 1;
        }
        if !(e.mindist < heap[child].right.mindist) {
          break;
        }
        SinkRightStep(g, heap, size, crt, child, elem, e);
        e := SinkRight(crt, child, e);
        crt := child;
        child := child * 2;
      }
      SinkRightDone(g, heap, size, crt, elem, e);
      heap := heap[crt := heap[crt].(right := e)];
    }

    /** One level of the descent; e goes on with the element in hand. */
    method SinkRight(crt: nat, child: nat, elem: Branch) returns (e: Branch)
      requires crt < child < |heap|
      modifies `heap
      ensures heap == SunkRight(old(heap), crt, child, elem)
      ensures e == if elem.mindist < old(heap)[child].left.mindist then old(heap)[child].left else elem
    {
      e := elem;
      heap := heap[crt := heap[crt].(right := heap[child].right)];
      if e.mindist < heap[child].left.mindist {
        var other := heap[child].left;
        heap := heap[child := heap[child].(left := e)];
        e := other;
      }
    }

    method GetMax() returns (ok: bool, value: Branch)
      requires Valid()
      ensures ok == (size > 0)
      ensures ok ==> value in elements && forall x :: x in elements ==> x.mindist <= value.mindist
    {
      if size == 0 {
        return false, Branch(0, 0);
      }
      RootIsExtreme(heap, size);
      return true, heap[1].right;
    }
  }

  /** What < compares. */
  function Key(b: Branch): int {
    b.mindist
  }

  /** An interval heap that makes room by dropping its greatest element. */
  class BoundedHeap {
    const intervalHeap: IntervalHeap
    const capacity: nat
    ghost var offered: multiset<Branch>  // held at the last pop or clear, or inserted since
    ghost var dropped: multiset<Branch>

    ghost predicate Valid()
      reads this, intervalHeap
    {
      && intervalHeap.Valid() && intervalHeap.capacity == capacity
      && KeepsSmallest(Key, intervalHeap.elements, dropped, offered, capacity)
    }

    constructor (capacity: nat)
      ensures Valid() && this.capacity == capacity && offered == multiset{} && fresh(intervalHeap)
    {
      intervalHeap := new IntervalHeap(capacity);
      this.capacity := capacity;
      offered, dropped := multiset{}, multiset{};
    }

    method Clear()
      requires Valid()
      modifies this, intervalHeap
      ensures Valid() && offered == multiset{}
    {
      intervalHeap.Clear();
      offered, dropped := multiset{}, multiset{};
    }

    /** Valid() keeps saying that exactly the smallest of the offered values are held. */
    method Insert(value: Branch)
      requires Valid()
      modifies this, intervalHeap
      ensures Valid() && offered == old(offered) + multiset{value}
    {
      ContentsSize(intervalHeap.heap, intervalHeap.size);
      if intervalHeap.size == capacity {
        var ok, max := intervalHeap.GetMax();
        // with no room at all max is unset and both branches leave the heap empty
        if max.mindist < value.mindist || !ok {
          DropOffered(Key, intervalHeap.elements, dropped, offered, capacity, value);
          dropped, offered := dropped + multiset{value}, offered + multiset{value};
          return;
        }
        ghost var kept := intervalHeap.elements;
        var _, popped := intervalHeap.PopMax();
        ghost var kept' := intervalHeap.elements;
        intervalHeap.Insert(value);
        DropGreatest(Key, kept, dropped, offered, capacity, kept', popped, value);
        dropped, offered := dropped + multiset{popped}, offered + multiset{value};
        return;
      }
      KeepOffered(Key, intervalHeap.elements, dropped, offered, capacity, value);
      intervalHeap.Insert(value);
      offered := offered + multiset{value};
    }

    method PopMin() returns (ok: bool, value: Branch)
      requires Valid()
      modifies this, intervalHeap
      ensures Valid() && ok == (old(intervalHeap.size) > 0)
      ensures ok ==> old(intervalHeap.elements) == intervalHeap.elements + multiset{value}
      ensures ok ==> forall x :: x in old(intervalHeap.elements) ==> value.mindist <= x.mindist
      ensures offered == intervalHeap.elements
    {
      ok, value := intervalHeap.PopMin();
      Restart();
    }

    /** The history of offers starts over with what is held. */
    ghost method Restart()
      requires intervalHeap.Valid() && intervalHeap.capacity == capacity
      modifies this
      ensures Valid() && offered == intervalHeap.elements
    {
      ContentsSize(intervalHeap.heap, intervalHeap.size);
      RestartHistory(Key, intervalHeap.elements, capacity);
      offered, dropped := intervalHeap.elements, multiset{};
    }
  }
}
