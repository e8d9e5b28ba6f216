/**
 Reading a bulk-loaded tree around a query key: the descent to the last segment whose
 first key is at most the key, and the two cursors that leave from there.
 */
module PageCursors {
  import opened Wrappers
  import opened BNodes
  import opened BTrees

  /** A segment of a leaf that is read next; size is -1 when there is none. */
  datatype PageBuffer = PageBuffer(leaf: Option<Leaf>, block: int, indexPos: int, leafPos: int, size: int)

  const NO_PAGE := PageBuffer(None, -1, -1, -1, -1)

  /** The leaf level of a tree: its table, its first block, and where its leaves begin. */
  datatype Leaves = Leaves(table: seq<Entry>, start: nat, cuts: seq<nat>)

  ghost predicate Good(pages: seq<Page>, t: Leaves, capacity: nat) {
    LeafRow(pages, t.table, t.start, t.cuts, capacity)
  }

  /** The p-th segment of leaf f. */
  ghost predicate IsSeg(cuts: seq<nat>, f: int, p: int) {
    0 <= f < |cuts| - 1 && cuts[f] <= cuts[f + 1] && 0 <= p < Segments(cuts[f + 1] - cuts[f])
  }

  ghost function SegStart(cuts: seq<nat>, f: int, p: int): (s: int)
    requires IsSeg(cuts, f, p)
  {
    cuts[f] + INCREMENT * p
  }

  ghost function SegEnd(cuts: seq<nat>, f: int, p: int): (s: int)
    requires IsSeg(cuts, f, p)
  {
    if p + 1 < Segments(cuts[f + 1] - cuts[f]) then cuts[f] + INCREMENT * (p + 1) else cuts[f + 1]
  }

  /** Segments are not empty and end in their leaf. */
  lemma {:induction false} SegSize(cuts: seq<nat>, f: int, p: int)
    requires IsSeg(cuts, f, p)
    ensures cuts[f] <= SegStart(cuts, f, p) < SegEnd(cuts, f, p) <= cuts[f + 1]
    ensures SegEnd(cuts, f, p) - SegStart(cuts, f, p) <= INCREMENT
  {
    SegmentCover(cuts[f + 1] - cuts[f]);
  }

  /** The cuts of a row are ordered. */
  lemma {:induction false} CutsOrdered(cuts: seq<nat>, capacity: nat, f: nat, g: nat)
    requires Cuts(cuts, capacity) && f < g < |cuts|
    ensures cuts[f] < cuts[g]
  {
    assert Cut(cuts, capacity, g - 1);
    if f < g - 1 {
      CutsOrdered(cuts, capacity, f, g - 1);
    }
  }

  /** Inside a leaf, a segment starts where the one before it ends, 1024 entries later. */
  lemma {:induction false} SegmentBefore(cuts: seq<nat>, f: int, p: int)
    requires IsSeg(cuts, f, p + 1) && p >= 0
    ensures IsSeg(cuts, f, p) && SegEnd(cuts, f, p) == SegStart(cuts, f, p + 1) == SegStart(cuts, f, p) + INCREMENT
  {
  }

  lemma {:induction false} SegmentAfter(cuts: seq<nat>, f: int, p: int)
    requires IsSeg(cuts, f, p) && p + 1 < Segments(cuts[f + 1] - cuts[f])
    ensures IsSeg(cuts, f, p + 1) && SegStart(cuts, f, p + 1) == SegEnd(cuts, f, p)
    ensures SegEnd(cuts, f, p + 1) - SegStart(cuts, f, p + 1) ==
      if p + 2 == Segments(cuts[f + 1] - cuts[f]) then cuts[f + 1] - cuts[f] - (p + 1) * INCREMENT else INCREMENT
  {
  }

  /** Of two segments one ends before the other starts, or they are the same. */
  lemma {:induction false} SegOrder(cuts: seq<nat>, capacity: nat, f: int, p: int, g: int, r: int)
    requires Cuts(cuts, capacity) && IsSeg(cuts, f, p) && IsSeg(cuts, g, r)
    requires SegStart(cuts, f, p) < SegStart(cuts, g, r)
    ensures SegEnd(cuts, f, p) <= SegStart(cuts, g, r)
  {
    SegSize(cuts, f, p);
    SegSize(cuts, g, r);
    if f > g {
      if g + 1 < f {
        CutsOrdered(cuts, capacity, g + 1, f);
      }
    } else if f < g {
      if f + 1 < g {
        CutsOrdered(cuts, capacity, f + 1, g);
      }
    }
  }

  /** The leaf of a buffer and the segment it stands on. */
  ghost predicate OnSeg(pages: seq<Page>, t: Leaves, b: PageBuffer)
  {
    var f := b.block - t.start;
    && IsSeg(t.cuts, f, b.indexPos) && 0 <= b.block < |pages| && pages[b.block].LeafPage?
    && b.leaf == Some(pages[b.block].leaf)
  }

  ghost function Start(t: Leaves, b: PageBuffer): int
    requires IsSeg(t.cuts, b.block - t.start, b.indexPos)
  {
    SegStart(t.cuts, b.block - t.start, b.indexPos)
  }

  ghost function End(t: Leaves, b: PageBuffer): int
    requires IsSeg(t.cuts, b.block - t.start, b.indexPos)
  {
    SegEnd(t.cuts, b.block - t.start, b.indexPos)
  }

  /** The left cursor: its segment ends where entry lo begins; there is none before entry 0. */
  ghost predicate LeftAt(pages: seq<Page>, t: Leaves, b: PageBuffer, lo: int)
  {
    if b.size == -1 then b == NO_PAGE && lo == 0
    else
      && OnSeg(pages, t, b) && End(t, b) == lo && b.size == lo - Start(t, b)
      && b.leafPos == lo - 1 - t.cuts[b.block - t.start]
  }

  /** The right cursor: its segment begins with entry hi; there is none after the last. */
  ghost predicate RightAt(pages: seq<Page>, t: Leaves, b: PageBuffer, hi: int)
  {
    if b.size == -1 then b == NO_PAGE && hi == |t.table|
    else
      && OnSeg(pages, t, b) && Start(t, b) == hi && b.size == End(t, b) - hi
      && b.leafPos == hi - t.cuts[b.block - t.start]
  }

  /** The leaf of block b holds its part of the table. */
  lemma {:induction false} LeafOfBlock(pages: seq<Page>, t: Leaves, capacity: nat, f: int)
    requires Good(pages, t, capacity) && 0 <= f < |t.cuts| - 1
    ensures LeafOk(pages, t.table, t.start, t.cuts, f)
    ensures Cuts(t.cuts, capacity) && t.cuts[|t.cuts| - 1] == |t.table|
    ensures t.cuts[f] < t.cuts[f + 1] <= |t.table|
  {
    assert LeafOk(pages, t.table, t.start, t.cuts, f);
    assert Cut(t.cuts, capacity, f);
  }

  /** Sparse key p of a leaf is the key of the first entry of its segment. */
  lemma {:induction false} SparseKey(pages: seq<Page>, t: Leaves, capacity: nat, f: int, p: int)
    requires Good(pages, t, capacity) && IsSeg(t.cuts, f, p)
    ensures LeafOk(pages, t.table, t.start, t.cuts, f)
    ensures 0 <= SegStart(t.cuts, f, p) < |t.table| && p < |pages[t.start + f].leaf.keys|
    ensures pages[t.start + f].leaf.keys[p] == t.table[SegStart(t.cuts, f, p)].key
  {
    LeafOfBlock(pages, t, capacity, f);
    SegSize(t.cuts, f, p);
    var leaf := pages[t.start + f].leaf;
    var entries := t.table[t.cuts[f]..t.cuts[f + 1]];
    assert leaf.keys[..leaf.numKeys][p] == SparseKeys(entries)[p];
  }

  /** A tree file whose leaf level is this one. */
  ghost predicate Open(tree: BTree, t: Leaves)
    reads tree
  {
    tree.Valid() && LeafCapacity(tree.blockLength) >= 100 && Good(tree.pages, t, LeafCapacity(tree.blockLength))
  }

  /** The leaf in a block, as it was written. */
  method ReadLeaf(tree: BTree, block: int, ghost t: Leaves) returns (leaf: Leaf)
    requires Open(tree, t) && 0 <= block - t.start < |t.cuts| - 1
    ensures LeafOk(tree.pages, t.table, t.start, t.cuts, block - t.start)
    ensures leaf == tree.pages[block].leaf
  {
    LeafOfBlock(tree.pages, t, LeafCapacity(tree.blockLength), block - t.start);
    var node := tree.RestoreLeaf(block);
    leaf := Leaf(node.level, node.leftSibling, node.rightSibling, node.numKeys, node.key[..],
                 node.id[..node.numEntries]);
  }

  /** The last segment of a leaf, for the left cursor. */
  function LastSegment(leaf: Leaf, block: int): PageBuffer {
    var pos := leaf.numKeys - 1;
    PageBuffer(Some(leaf), block, pos, |leaf.ids| - 1, |leaf.ids| - pos * INCREMENT)
  }

  lemma {:induction false} LastSegmentAt(pages: seq<Page>, t: Leaves, capacity: nat, block: int)
    requires Good(pages, t, capacity) && 0 <= block - t.start < |t.cuts| - 1
    requires LeafOk(pages, t.table, t.start, t.cuts, block - t.start)
    ensures LeftAt(pages, t, LastSegment(pages[block].leaf, block), t.cuts[block - t.start + 1])
    ensures LastSegment(pages[block].leaf, block).size != -1
  {
    var cuts, f := t.cuts, block - t.start;
    LeafOfBlock(pages, t, capacity, f);
    SegmentCover(cuts[f + 1] - cuts[f]);
  }

  /** The first segment of a leaf, for the right cursor. */
  function FirstSegment(leaf: Leaf, block: int): PageBuffer {
    PageBuffer(Some(leaf), block, 0, 0, if INCREMENT > |leaf.ids| then |leaf.ids| else INCREMENT)
  }

  lemma {:induction false} FirstSegmentAt(pages: seq<Page>, t: Leaves, capacity: nat, block: int)
    requires Good(pages, t, capacity) && 0 <= block - t.start < |t.cuts| - 1
    requires LeafOk(pages, t.table, t.start, t.cuts, block - t.start)
    ensures RightAt(pages, t, FirstSegment(pages[block].leaf, block), t.cuts[block - t.start])
    ensures FirstSegment(pages[block].leaf, block).size != -1
  {
    var cuts, f := t.cuts, block - t.start;
    LeafOfBlock(pages, t, capacity, f);
    SegmentCover(cuts[f + 1] - cuts[f]);
  }

  /** The segment before, in the same leaf. */
  function SegmentLeft(b: PageBuffer): PageBuffer {
    var pos := b.indexPos - 1;
    b.(indexPos := pos, leafPos := pos * INCREMENT + INCREMENT - 1, size := INCREMENT)
  }

  lemma {:induction false} SegmentLeftAt(pages: seq<Page>, t: Leaves, capacity: nat, b: PageBuffer)
    requires Good(pages, t, capacity) && OnSeg(pages, t, b) && b.indexPos > 0
    ensures LeftAt(pages, t, SegmentLeft(b), Start(t, b))
  {
    SegmentBefore(t.cuts, b.block - t.start, b.indexPos - 1);
  }

  /** The segment after, in the same leaf; the last one may be short. */
  function SegmentRight(b: PageBuffer): PageBuffer
    requires b.leaf.Some?
  {
    var leaf, pos := b.leaf.value, b.indexPos + 1;
    var size := if pos == leaf.numKeys - 1 then |leaf.ids| - pos * INCREMENT else INCREMENT;
    b.(indexPos := pos, leafPos := pos * INCREMENT, size := size)
  }

  lemma {:induction false} SegmentRightAt(pages: seq<Page>, t: Leaves, capacity: nat, b: PageBuffer)
    requires Good(pages, t, capacity) && OnSeg(pages, t, b) && b.indexPos < b.leaf.value.numKeys - 1
    ensures RightAt(pages, t, SegmentRight(b), End(t, b))
  {
    LeafOfBlock(pages, t, capacity, b.block - t.start);
    SegmentAfter(t.cuts, b.block - t.start, b.indexPos);
  }

  /** The siblings of a leaf are its neighbours; the outermost leaves have none. */
  lemma {:induction false} Siblings(pages: seq<Page>, t: Leaves, capacity: nat, b: PageBuffer)
    requires Good(pages, t, capacity) && OnSeg(pages, t, b)
    ensures var f, leaf := b.block - t.start, b.leaf.value;
      && leaf.left == LeftOf(t.start, f) && leaf.right == RightOf(t.start, f, |t.cuts| - 1)
      && leaf.numKeys == Segments(t.cuts[f + 1] - t.cuts[f])
      && (b.indexPos == 0 ==> Start(t, b) == t.cuts[f])
      && (b.indexPos >= leaf.numKeys - 1 ==> End(t, b) == t.cuts[f + 1])
      && (f == 0 ==> t.cuts[f] == 0) && (f + 2 == |t.cuts| ==> t.cuts[f + 1] == |t.table|)
  {
    LeafOfBlock(pages, t, capacity, b.block - t.start);
  }

  method ReadLastSegment(tree: BTree, block: int, ghost t: Leaves) returns (b: PageBuffer)
    requires Open(tree, t) && 0 <= block - t.start < |t.cuts| - 1
    ensures LeftAt(tree.pages, t, b, t.cuts[block - t.start + 1])
  {
    var leaf := ReadLeaf(tree, block, t);
    LastSegmentAt(tree.pages, t, LeafCapacity(tree.blockLength), block);
    b := LastSegment(leaf, block);
  }

  method ReadFirstSegment(tree: BTree, block: int, ghost t: Leaves) returns (b: PageBuffer)
    requires Open(tree, t) && 0 <= block - t.start < |t.cuts| - 1
    ensures RightAt(tree.pages, t, b, t.cuts[block - t.start])
  {
    var leaf := ReadLeaf(tree, block, t);
    FirstSegmentAt(tree.pages, t, LeafCapacity(tree.blockLength), block);
    b := FirstSegment(leaf, block);
  }

  /** The left cursor moves to the segment before the one it stands on. */
  method UpdateLeftBuffer(tree: BTree, lptr: PageBuffer, ghost t: Leaves) returns (b: PageBuffer)
    requires Open(tree, t) && OnSeg(tree.pages, t, lptr)
    ensures LeftAt(tree.pages, t, b, Start(t, lptr))
  {
    Siblings(tree.pages, t, LeafCapacity(tree.blockLength), lptr);
    if lptr.indexPos > 0 {
      SegmentLeftAt(tree.pages, t, LeafCapacity(tree.blockLength), lptr);
      b := SegmentLeft(lptr);
    } else if lptr.leaf.value.left != -1 {
      b := ReadLastSegment(tree, lptr.leaf.value.left, t);
    } else {
      b := NO_PAGE;
    }
  }

  /** The right cursor moves to the segment after the one it stands on. */
  method UpdateRightBuffer(tree: BTree, rptr: PageBuffer, ghost t: Leaves) returns (b: PageBuffer)
    requires Open(tree, t) && OnSeg(tree.pages, t, rptr)
    ensures RightAt(tree.pages, t, b, End(t, rptr))
  {
    Siblings(tree.pages, t, LeafCapacity(tree.blockLength), rptr);
    if rptr.indexPos < rptr.leaf.value.numKeys - 1 {
      SegmentRightAt(tree.pages, t, LeafCapacity(tree.blockLength), rptr);
      b := SegmentRight(rptr);
    } else if rptr.leaf.value.right != -1 {
      b := ReadFirstSegment(tree, rptr.leaf.value.right, t);
    } else {
      b := NO_PAGE;
    }
  }

  /** The distance of the first key of a segment to the query key. */
  function ProjDist(b: PageBuffer, q: real): real
    requires b.leaf.Some? && 0 <= b.indexPos < |b.leaf.value.keys|
  {
    var key := b.leaf.value.keys[b.indexPos];
    if key >= q then key - q else q - key
  }

  /**
   Node i of level k is where q belongs: the last one whose key is at most q, or the first one when q is
   below all keys.
   */
  ghost predicate Located(rows: seq<Row>, k: nat, i: int, q: real, lescape: bool) {
    && k < |rows| && 0 <= i < |rows[k].keys|
    && (if lescape then i == 0 && q < rows[k].keys[0]
        else rows[k].keys[i] <= q && (i + 1 < |rows[k].keys| ==> q < rows[k].keys[i + 1]))
  }

  /** The same, except that at the root nothing is known before its keys are read. */
  ghost predicate Reached(rows: seq<Row>, k: nat, i: int, q: real, lescape: bool) {
    Located(rows, k, i, q, lescape) || (k == |rows| - 1 && i == 0 && |rows[k].keys| == 1 && !lescape)
  }

  /** An index node holds the keys of its children and is known by the first of them. */
  lemma {:induction false} NodeOfRow(pages: seq<Page>, table: seq<Entry>, rows: seq<Row>, k: nat, i: int,
                                     leafCapacity: int,
                                     indexCapacity: int)
    requires RowsOk(pages, table, rows, leafCapacity, indexCapacity) && 1 <= k < |rows| && 0 <= i < |rows[k].keys|
    ensures |rows[k].cuts| == |rows[k].keys| + 1 && rows[k].cuts[0] == 0
    ensures rows[k].cuts[|rows[k].keys|] == |rows[k - 1].keys|
    ensures IndexOk(pages, k, rows[k - 1].keys, rows[k - 1].start, rows[k].start, rows[k].cuts, i)
    ensures rows[k].cuts[i] < rows[k].cuts[i + 1] && rows[k].keys[i] == rows[k - 1].keys[rows[k].cuts[i]]
  {
    assert RowOk(pages, table, rows, k, leafCapacity, indexCapacity);
    assert IndexOk(pages, k, rows[k - 1].keys, rows[k - 1].start, rows[k].start, rows[k].cuts, i);
    assert Cut(rows[k].cuts, indexCapacity, i);
    assert ChildOk(pages, k + 1, rows[k].start + i, rows[k].keys[i]);
  }

  /** The child that is followed from a node. */
  ghost predicate Followed(rows: seq<Row>, k: nat, i: int, q: real, lescape: bool, follow: int, lescape': bool)
    requires 1 <= k < |rows| && 0 <= i < |rows[k].keys| < |rows[k].cuts|
    requires rows[k].cuts[i] < rows[k].cuts[i + 1] <= |rows[k - 1].keys|
  {
    var keys := rows[k - 1].keys[rows[k].cuts[i]..rows[k].cuts[i + 1]];
    && 0 <= follow < |keys|
    && (lescape' ==> follow == 0 && i == 0 && q < keys[0])
    && (!lescape' ==> keys[follow] <= q && forall j :: follow < j < |keys| ==> keys[j] > q)
  }

  lemma {:induction false} FollowedLocated(pages: seq<Page>, table: seq<Entry>, rows: seq<Row>, k: nat, i: int, q: real,
                                           lescape: bool, follow: int, lescape': bool, leafCapacity: int,
                                           indexCapacity: int)
    requires RowsOk(pages, table, rows, leafCapacity, indexCapacity) && 1 <= k < |rows| && 0 <= i < |rows[k].keys|
    requires Reached(rows, k, i, q, lescape)
    requires |rows[k].keys| < |rows[k].cuts| && rows[k].cuts[i] < rows[k].cuts[i + 1] <= |rows[k - 1].keys|
    requires Followed(rows, k, i, q, lescape, follow, lescape') && (lescape ==> lescape')
    ensures Located(rows, k - 1, rows[k].cuts[i] + follow, q, lescape')
  {
    NodeOfRow(pages, table, rows, k, i, leafCapacity, indexCapacity);
    var keys := rows[k - 1].keys[rows[k].cuts[i]..rows[k].cuts[i + 1]];
    var c := rows[k].cuts[i] + follow;
    if lescape' {
      assert keys[0] == rows[k - 1].keys[c];
    } else {
      assert keys[follow] == rows[k - 1].keys[c];
      if follow + 1 < |keys| {
        assert keys[follow + 1] == rows[k - 1].keys[c + 1];
      } else if i + 1 < |rows[k].keys| {
        NodeOfRow(pages, table, rows, k, i + 1, leafCapacity, indexCapacity);
      }
    }
  }

  ghost predicate Ascending(keys: seq<real>) {
    forall i, j :: 0 <= i < j < |keys| ==> keys[i] <= keys[j]
  }

  /** The hash values a tree is loaded with are sorted. */
  ghost predicate SortedTable(table: seq<Entry>) {
    forall i, j :: 0 <= i < j < |table| ==> table[i].key <= table[j].key
  }

  /** All keys of all levels are in ascending order. */
  lemma {:induction false} RowAscending(pages: seq<Page>, table: seq<Entry>, rows: seq<Row>, k: nat, leafCapacity: int,
                                        indexCapacity: int)
    requires RowsOk(pages, table, rows, leafCapacity, indexCapacity) && SortedTable(table) && k < |rows|
    requires indexCapacity > 0
    ensures Ascending(rows[k].keys)
  {
    assert RowOk(pages, table, rows, k, leafCapacity, indexCapacity);
    if k > 0 {
      RowAscending(pages, table, rows, k - 1, leafCapacity, indexCapacity);
    }
    forall i, j | 0 <= i < j < |rows[k].keys|
      ensures rows[k].keys[i] <= rows[k].keys[j]
    {
      if k == 0 {
        LeafKey(pages, table, rows, i, leafCapacity, indexCapacity);
        LeafKey(pages, table, rows, j, leafCapacity, indexCapacity);
        CutsOrdered(rows[0].cuts, leafCapacity, i, j);
      } else {
        NodeOfRow(pages, table, rows, k, i, leafCapacity, indexCapacity);
        NodeOfRow(pages, table, rows, k, j, leafCapacity, indexCapacity);
        CutsOrdered(rows[k].cuts, indexCapacity, i, j);
      }
    }
  }

  /** A leaf is known by the key of its first entry. */
  lemma {:induction false} LeafKey(pages: seq<Page>, table: seq<Entry>, rows: seq<Row>, i: int, leafCapacity: int,
                                   indexCapacity: int)
    requires RowsOk(pages, table, rows, leafCapacity, indexCapacity) && 0 <= i < |rows[0].keys|
    ensures |rows[0].keys| == |rows[0].cuts| - 1 && 0 <= rows[0].cuts[i] < |table|
    ensures rows[0].keys[i] == table[rows[0].cuts[i]].key
    ensures LeafRow(pages, table, rows[0].start, rows[0].cuts, leafCapacity)
  {
    assert RowOk(pages, table, rows, 0, leafCapacity, indexCapacity);
    var t := Leaves(table, rows[0].start, rows[0].cuts);
    LeafOfBlock(pages, t, leafCapacity, i);
    assert ChildOk(pages, 1, rows[0].start + i, rows[0].keys[i]);
    SegmentCover(rows[0].cuts[i + 1] - rows[0].cuts[i]);
    SparseKey(pages, t, leafCapacity, i, 0);
  }

  /** A tree with at least two leaves, opened for queries. */
  ghost predicate Loaded(tree: BTree, table: seq<Entry>, rows: seq<Row>)
    reads tree
  {
    && tree.Valid() && TreeOk(tree.pages, table, rows, tree.root, tree.blockLength) && |rows| >= 2 && SortedTable(table)
    && LeafCapacity(tree.blockLength) >= 100 && IndexCapacity(tree.blockLength) >= 50
  }

  /** A tree bulk-loaded from more sorted hash values than a leaf holds can be queried. */
  lemma {:induction false} BulkloadedIsLoaded(tree: BTree, table: seq<Entry>, rows: seq<Row>)
    requires tree.Valid() && TreeOk(tree.pages, table, rows, tree.root, tree.blockLength)
    requires SortedTable(table) && |table| > LeafCapacity(tree.blockLength)
    ensures Loaded(tree, table, rows)
  {
    CapacityFits(tree.blockLength, 0);
    assert RowOk(tree.pages, table, rows, 0, LeafCapacity(tree.blockLength), IndexCapacity(tree.blockLength));
    assert Cut(rows[0].cuts, LeafCapacity(tree.blockLength), 0);
  }

  /** An index node of the tree, read from its block. */
  method ReadIndex(tree: BTree, block: int, ghost table: seq<Entry>, ghost rows: seq<Row>, ghost k: nat, ghost i: int)
    returns (node: BIndexNode)
    requires Loaded(tree, table, rows) && 1 <= k < |rows| && 0 <= i < |rows[k].keys| && block == rows[k].start + i
    ensures IsNode(node, tree, rows, k, i)
  {
    NodeOfRow(tree.pages, table, rows, k, i, LeafCapacity(tree.blockLength), IndexCapacity(tree.blockLength));
    node := tree.RestoreIndex(block);
  }

  /** A node read from the block of node i of level k. */
  ghost predicate IsNode(node: BIndexNode, tree: BTree, rows: seq<Row>, k: nat, i: int)
    reads node, node.key, node.son, tree
  {
    && 1 <= k < |rows| && 0 <= i < |rows[k].keys| < |rows[k].cuts|
         && rows[k].cuts[i] < rows[k].cuts[i + 1] <= |rows[k - 1].keys|
    && node.Valid() && node.level == k
    && node.key[..node.numEntries] == rows[k - 1].keys[rows[k].cuts[i]..rows[k].cuts[i + 1]]
    && node.son[..node.numEntries] == Blocks(rows[k - 1].start + rows[k].cuts[i], node.numEntries)
  }

  /** A query key below the first key of a node has no branch there; that only happens on the way down from the root. */
  lemma {:induction false} NoBranch(rows: seq<Row>, k: nat, i: int, q: real, lescape: bool, keys: seq<real>)
    requires 1 <= k < |rows| && 0 <= i < |rows[k].keys| < |rows[k].cuts|
    requires rows[k].cuts[i] < rows[k].cuts[i + 1] <= |rows[k - 1].keys|
    requires Reached(rows, k, i, q, lescape) && keys == rows[k - 1].keys[rows[k].cuts[i]..rows[k].cuts[i + 1]]
    requires rows[k].keys[i] == keys[0] && Ascending(rows[k - 1].keys)
    ensures keys[0] > q && !lescape ==> k == |rows| - 1 && i == 0
    ensures lescape ==> i == 0 && forall j :: 0 <= j < |keys| ==> keys[j] > q
  {
    forall j | 0 <= j < |keys|
      ensures keys[0] <= keys[j]
    {
      assert keys[j] == rows[k - 1].keys[rows[k].cuts[i] + j];
    }
  }

  /** The branch for q in an index node above level 1. */
  method FollowBranch(tree: BTree, node: BIndexNode, block: int, q: real, lescape: bool, ghost table: seq<Entry>,
                      ghost rows: seq<Row>,
                      ghost k: nat, ghost i: int)
    returns (son: int, lescape': bool)
    requires Loaded(tree, table, rows) && IsNode(node, tree, rows, k, i) && Reached(rows, k, i, q, lescape)
    requires block == rows[k].start + i
    ensures Located(rows, k - 1, son - rows[k - 1].start, q, lescape')
  {
    NodeOfRow(tree.pages, table, rows, k, i, LeafCapacity(tree.blockLength), IndexCapacity(tree.blockLength));
    RowAscending(tree.pages, table, rows, k - 1, LeafCapacity(tree.blockLength), IndexCapacity(tree.blockLength));
    ghost var keys := node.key[..node.numEntries];
    NoBranch(rows, k, i, q, lescape, keys);
    lescape' := lescape;
    var follow := node.FindPositionByKey(q);
    assert forall j :: 0 <= j < |keys| ==> keys[j] == node.key[j];
    if follow == -1 {
      if !lescape {
        assert block == tree.root;  // "No branch found" is reported for any other block
        lescape' := true;
      }
      follow := 0;
    }
    FollowedLocated(tree.pages, table, rows, k, i, q, lescape, follow, lescape', LeafCapacity(tree.blockLength),
                    IndexCapacity(tree.blockLength));
    assert node.son[..node.numEntries][follow] == rows[k - 1].start + rows[k].cuts[i] + follow;
    son := node.son[follow];
  }

  /** The leaf for q, from a node of level 1. */
  method FollowToLeaf(tree: BTree, node: BIndexNode, q: real, lescape: bool, ghost table: seq<Entry>,
                      ghost rows: seq<Row>, ghost i: int)
    returns (son: int, lescape': bool)
    requires Loaded(tree, table, rows) && IsNode(node, tree, rows, 1, i) && Reached(rows, 1, i, q, lescape)
    ensures Located(rows, 0, son - rows[0].start, q, lescape')
  {
    NodeOfRow(tree.pages, table, rows, 1, i, LeafCapacity(tree.blockLength), IndexCapacity(tree.blockLength));
    RowAscending(tree.pages, table, rows, 0, LeafCapacity(tree.blockLength), IndexCapacity(tree.blockLength));
    ghost var keys := node.key[..node.numEntries];
    NoBranch(rows, 1, i, q, lescape, keys);
    lescape' := lescape;
    var follow := node.FindPositionByKey(q);
    assert forall j :: 0 <= j < |keys| ==> keys[j] == node.key[j];
    if follow < 0 {
      lescape' := true;
      follow := 0;
    }
    FollowedLocated(tree.pages, table, rows, 1, i, q, lescape, follow, lescape', LeafCapacity(tree.blockLength),
                    IndexCapacity(tree.blockLength));
    assert node.son[..node.numEntries][follow] == rows[0].start + rows[1].cuts[i] + follow;
    son := if lescape' then node.son[0] else node.son[follow];
  }

  /** From the root to the last leaf whose first key is at most q, or to the first leaf if there is none. */
  method FindLeaf(tree: BTree, q: real, ghost table: seq<Entry>, ghost rows: seq<Row>)
    returns (block: int, lescape: bool)
    requires Loaded(tree, table, rows)
    ensures Located(rows, 0, block - rows[0].start, q, lescape)
  {
    ghost var k: nat, i: int := |rows| - 1, 0;
    block, lescape := tree.root, false;
    var node := ReadIndex(tree, block, table, rows, k, i);
    while node.level > 1
      invariant 1 <= k < |rows| && Loaded(tree, table, rows) && IsNode(node, tree, rows, k, i)
      invariant Reached(rows, k, i, q, lescape) && block == rows[k].start + i
      decreases k
    {
      block, lescape := FollowBranch(tree, node, block, q, lescape, table, rows, k, i);
      k := k - 1;
      i := block - rows[k].start;
      node := ReadIndex(tree, block, table, rows, k, i);
    }
    block, lescape := FollowToLeaf(tree, node, q, lescape, table, rows, i);
  }

  /** A leaf position as the left cursor starts on it. */
  function SegmentOf(leaf: Leaf, block: int, pos: int): PageBuffer {
    if pos == leaf.numKeys - 1 then LastSegment(leaf, block)
    else PageBuffer(Some(leaf), block, pos, pos * INCREMENT + INCREMENT - 1, INCREMENT)
  }

  lemma {:induction false} SegmentOfAt(pages: seq<Page>, t: Leaves, capacity: nat, block: int, pos: int)
    requires Good(pages, t, capacity) && 0 <= block - t.start < |t.cuts| - 1
    requires LeafOk(pages, t.table, t.start, t.cuts, block - t.start) && 0 <= pos < pages[block].leaf.numKeys
    ensures LeftAt(pages, t, SegmentOf(pages[block].leaf, block, pos), SegEnd(t.cuts, block - t.start, pos))
    ensures OnSeg(pages, t, SegmentOf(pages[block].leaf, block, pos))
    ensures SegmentOf(pages[block].leaf, block, pos).indexPos == pos
  {
    LeafOfBlock(pages, t, capacity, block - t.start);
    if pos == pages[block].leaf.numKeys - 1 {
      LastSegmentAt(pages, t, capacity, block);
    } else {
      SegmentBefore(t.cuts, block - t.start, pos);
    }
  }

  /** The left cursor stands on a segment whose first key is at most q. */
  ghost predicate KeyBelow(t: Leaves, lptr: PageBuffer, q: real) {
    && IsSeg(t.cuts, lptr.block - t.start, lptr.indexPos)
    && 0 <= Start(t, lptr) < |t.table| && t.table[Start(t, lptr)].key <= q
  }

  /** Segments before entry s begin with keys up to q, those from s on with greater ones. */
  ghost predicate SplitAt(t: Leaves, lptr: PageBuffer, s: int, q: real) {
    && 0 <= s <= |t.table| && (lptr.size != -1 ==> KeyBelow(t, lptr, q))
    && (s < |t.table| ==> t.table[s].key > q)
  }

  /** Position pos holds the last sparse key of the leaf that is at most q. */
  ghost predicate LastBelow(leaf: Leaf, pos: int, q: real) {
    && 0 <= pos < leaf.numKeys <= |leaf.keys| && leaf.keys[pos] <= q
    && forall j :: pos < j < leaf.numKeys ==> leaf.keys[j] > q
  }

  /** The segment after the last one with a key up to q has a greater key. */
  lemma {:induction false} KeyAbove(pages: seq<Page>, table: seq<Entry>, rows: seq<Row>, q: real, f: int, pos: int,
                                    leafCapacity: int, indexCapacity: int)
    requires RowsOk(pages, table, rows, leafCapacity, indexCapacity) && Located(rows, 0, f, q, false)
    requires LeafRow(pages, table, rows[0].start, rows[0].cuts, leafCapacity) && IsSeg(rows[0].cuts, f, pos)
    requires LeafOk(pages, table, rows[0].start, rows[0].cuts, f) && LastBelow(pages[rows[0].start + f].leaf, pos, q)
    ensures var s := SegEnd(rows[0].cuts, f, pos); 0 <= s <= |table| && (s < |table| ==> table[s].key > q)
  {
    var t := Leaves(table, rows[0].start, rows[0].cuts);
    LeafOfBlock(pages, t, leafCapacity, f);
    SegSize(t.cuts, f, pos);
    if pos + 1 < Segments(t.cuts[f + 1] - t.cuts[f]) {
      SegmentAfter(t.cuts, f, pos);
      SparseKey(pages, t, leafCapacity, f, pos + 1);
    } else {
      LeafKey(pages, table, rows, f, leafCapacity, indexCapacity);
      if f + 1 < |rows[0].keys| {
        LeafKey(pages, table, rows, f + 1, leafCapacity, indexCapacity);
      }
    }
  }

  /** The last segment of the located leaf whose first key is at most q, and what follows it. */
  lemma {:induction false} LocatedSplit(pages: seq<Page>, table: seq<Entry>, rows: seq<Row>, q: real, f: int, pos: int,
                                        leafCapacity: int, indexCapacity: int)
    requires RowsOk(pages, table, rows, leafCapacity, indexCapacity) && Located(rows, 0, f, q, false)
    requires LeafRow(pages, table, rows[0].start, rows[0].cuts, leafCapacity) && IsSeg(rows[0].cuts, f, pos)
    requires LeafOk(pages, table, rows[0].start, rows[0].cuts, f) && LastBelow(pages[rows[0].start + f].leaf, pos, q)
    ensures SplitAt(Leaves(table, rows[0].start, rows[0].cuts),
                    SegmentOf(pages[rows[0].start + f].leaf, rows[0].start + f, pos), SegEnd(rows[0].cuts, f, pos), q)
  {
    var t := Leaves(table, rows[0].start, rows[0].cuts);
    KeyAbove(pages, table, rows, q, f, pos, leafCapacity, indexCapacity);
    SparseKey(pages, t, leafCapacity, f, pos);
    SegmentOfAt(pages, t, leafCapacity, rows[0].start + f, pos);
  }

  /** The last sparse key of a leaf that is at most q. */
  method FindInLeaf(leaf: Leaf, q: real) returns (pos: int)
    requires leaf.numKeys <= |leaf.keys|
    ensures -1 <= pos && (pos >= 0 ==> LastBelow(leaf, pos, q))
    ensures pos == -1 ==> forall j :: 0 <= j < leaf.numKeys ==> leaf.keys[j] > q
  {
    pos := leaf.numKeys - 1;
    while pos >= 0 && leaf.keys[pos] > q
      invariant -1 <= pos < leaf.numKeys || pos == leaf.numKeys - 1
      invariant forall j :: pos < j < leaf.numKeys ==> leaf.keys[j] > q
    {
      pos := pos - 1;
    }
    if pos < 0 {
      pos := -1;
    }
  }

  /** Both cursors meet at entry s, where the keys pass q. */
  ghost predicate Meet(pages: seq<Page>, t: Leaves, lptr: PageBuffer, rptr: PageBuffer, s: int, q: real) {
    LeftAt(pages, t, lptr, s) && RightAt(pages, t, rptr, s) && SplitAt(t, lptr, s, q)
  }

  /** Both cursors for a query key: they meet at the entry where the keys pass q. */
  method InitBuffer(tree: BTree, q: real, ghost table: seq<Entry>, ghost rows: seq<Row>)
    returns (lptr: PageBuffer, rptr: PageBuffer)
    requires Loaded(tree, table, rows)
    ensures Open(tree, Leaves(table, rows[0].start, rows[0].cuts))
    ensures exists s :: Meet(tree.pages, Leaves(table, rows[0].start, rows[0].cuts), lptr, rptr, s, q)
  {
    ghost var t := Leaves(table, rows[0].start, rows[0].cuts);
    var block, lescape := FindLeaf(tree, q, table, rows);
    ghost var f := block - rows[0].start;
    LeafKey(tree.pages, table, rows, f, LeafCapacity(tree.blockLength), IndexCapacity(tree.blockLength));
    if lescape {
      lptr := NO_PAGE;
      rptr := ReadFirstSegment(tree, block, t);
      assert Meet(tree.pages, t, lptr, rptr, 0, q);
    } else {
      lptr, rptr := InitBoth(tree, block, q, table, rows);
    }
  }

  /** The cursors in a leaf with a key up to q. */
  method InitBoth(tree: BTree, block: int, q: real, ghost table: seq<Entry>, ghost rows: seq<Row>)
    returns (lptr: PageBuffer, rptr: PageBuffer)
    requires Loaded(tree, table, rows) && Located(rows, 0, block - rows[0].start, q, false)
    ensures Open(tree, Leaves(table, rows[0].start, rows[0].cuts))
    ensures exists s :: Meet(tree.pages, Leaves(table, rows[0].start, rows[0].cuts), lptr, rptr, s, q)
  {
    ghost var t := Leaves(table, rows[0].start, rows[0].cuts);
    lptr := InitLeft(tree, block, q, table, rows);
    rptr := UpdateRightBuffer(tree, lptr, t);
    assert Meet(tree.pages, t, lptr, rptr, End(t, lptr), q);
  }

  /** The left cursor in a leaf with a key up to q: it ends where the keys pass q. */
  method InitLeft(tree: BTree, block: int, q: real, ghost table: seq<Entry>, ghost rows: seq<Row>)
    returns (lptr: PageBuffer)
    requires Loaded(tree, table, rows) && Located(rows, 0, block - rows[0].start, q, false)
    ensures var t := Leaves(table, rows[0].start, rows[0].cuts);
      && Open(tree, t) && OnSeg(tree.pages, t, lptr) && LeftAt(tree.pages, t, lptr, End(t, lptr))
      && SplitAt(t, lptr, End(t, lptr), q)
  {
    ghost var lc, ic := LeafCapacity(tree.blockLength), IndexCapacity(tree.blockLength);
    FirstBelow(tree.pages, table, rows, q, block - rows[0].start, lc, ic);
    var leaf := ReadLeaf(tree, block, Leaves(table, rows[0].start, rows[0].cuts));
    var pos := FindInLeaf(leaf, q);
    if pos < 0 {
      pos := 0;
    }
    lptr := SegmentOf(leaf, block, pos);
    StartsLeft(tree.pages, table, rows, q, block, pos, lc, ic);
  }

  /** The left cursor of the segment found ends where the keys pass q. */
  lemma {:induction false} StartsLeft(pages: seq<Page>, table: seq<Entry>, rows: seq<Row>, q: real, block: int,
                                      pos: int,
                                      leafCapacity: int, indexCapacity: int)
    requires RowsOk(pages, table, rows, leafCapacity, indexCapacity)
        && Located(rows, 0, block - rows[0].start, q, false)
    requires LeafRow(pages, table, rows[0].start, rows[0].cuts, leafCapacity) && |rows[0].cuts| == |rows[0].keys| + 1
    requires LeafOk(pages, table, rows[0].start, rows[0].cuts, block - rows[0].start)
    requires 0 <= pos < pages[block].leaf.numKeys && LastBelow(pages[block].leaf, pos, q)
    ensures var t, lptr := Leaves(table, rows[0].start, rows[0].cuts), SegmentOf(pages[block].leaf, block, pos);
      OnSeg(pages, t, lptr) && LeftAt(pages, t, lptr, End(t, lptr)) && SplitAt(t, lptr, End(t, lptr), q)
  {
    SegmentOfAt(pages, Leaves(table, rows[0].start, rows[0].cuts), leafCapacity, block, pos);
    LocatedSplit(pages, table, rows, q, block - rows[0].start, pos, leafCapacity, indexCapacity);
  }

  lemma {:induction false} FirstBelow(pages: seq<Page>, table: seq<Entry>, rows: seq<Row>, q: real, f: int,
                                      leafCapacity: int,
                                      indexCapacity: int)
    requires RowsOk(pages, table, rows, leafCapacity, indexCapacity) && Located(rows, 0, f, q, false)
    ensures LeafRow(pages, table, rows[0].start, rows[0].cuts, leafCapacity) && |rows[0].cuts| == |rows[0].keys| + 1
    ensures LeafOk(pages, table, rows[0].start, rows[0].cuts, f)
    ensures var leaf := pages[rows[0].start + f].leaf; 0 < leaf.numKeys <= |leaf.keys| && leaf.keys[0] <= q
  {
    var t := Leaves(table, rows[0].start, rows[0].cuts);
    LeafKey(pages, table, rows, f, leafCapacity, indexCapacity);
    LeafOfBlock(pages, t, leafCapacity, f);
    SegmentCover(t.cuts[f + 1] - t.cuts[f]);
    SparseKey(pages, t, leafCapacity, f, 0);
  }
}
