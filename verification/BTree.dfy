/**
 Bulk loading of a disk B-tree. Leaves and then every index level are appended to the
 file, so each level is a contiguous range of blocks; an index node stores the first key
 of every child.
 */
module BTrees {
  import opened BNodes

  /** What a block of the file holds. */
  datatype Page = Raw | LeafPage(leaf: Leaf) | IndexPage(index: Index)

  ghost predicate Stored(bytes: seq<Byte>, page: Page) {
    match page
    case Raw => true
    case LeafPage(x) =>
      |x.keys| == CapacityKeys(|bytes|) && |x.ids| <= LeafCapacity(|bytes|) && x.numKeys >= 0
          && Begins(bytes, LeafBytes(x))
    case IndexPage(x) => |x.keys| == |x.sons| <= IndexCapacity(|bytes|) && Begins(bytes, IndexBytes(x))
  }

  /** A leaf with these entries and siblings. */
  ghost predicate LeafAt(page: Page, entries: seq<Entry>, left: int, right: int) {
    && page.LeafPage? && page.leaf.level == 0 && page.leaf.left == left && page.leaf.right == right
    && page.leaf.ids == Ids(entries) && page.leaf.numKeys == Segments(|entries|) <= |page.leaf.keys|
    && page.leaf.keys[..page.leaf.numKeys] == SparseKeys(entries)
  }

  /** Blocks side by side. */
  function Blocks(first: int, n: nat): (s: seq<int>)
    ensures |s| == n
  {
    seq(n, j => first + j)
  }

  /** An index node with these child keys, for the blocks from firstSon on. */
  ghost predicate IndexAt(page: Page, level: int, keys: seq<real>, firstSon: int, left: int, right: int) {
    page == IndexPage(Index(level, left, right, keys, Blocks(firstSon, |keys|)))
  }

  /** Node i holds the items from cuts[i] up to cuts[i + 1]; all nodes but the last are full. */
  ghost predicate Cut(cuts: seq<nat>, capacity: nat, i: nat)
    requires i + 1 < |cuts|
  {
    cuts[i] < cuts[i + 1] <= cuts[i] + capacity && (i + 2 < |cuts| ==> cuts[i + 1] == cuts[i] + capacity)
  }

  ghost predicate CutsUpto(cuts: seq<nat>, capacity: nat, m: nat)
    requires m < |cuts|
  {
    forall i :: 0 <= i < m ==> Cut(cuts, capacity, i)
  }

  ghost predicate Cuts(cuts: seq<nat>, capacity: nat) {
    |cuts| >= 2 && cuts[0] == 0 && CutsUpto(cuts, capacity, |cuts| - 1)
  }

  function LeftOf(start: int, i: nat): int {
    if i == 0 then -1 else start + i - 1
  }

  function RightOf(start: int, i: nat, count: nat): int {
    if i + 1 == count then -1 else start + i + 1
  }

  /** The i-th leaf of a row. */
  ghost predicate LeafOk(pages: seq<Page>, table: seq<Entry>, start: nat, cuts: seq<nat>, i: nat)
    requires i + 1 < |cuts|
  {
    && start + i < |pages| && cuts[i] <= cuts[i + 1] <= |table|
    && LeafAt(pages[start + i], table[cuts[i]..cuts[i + 1]], LeftOf(start, i), RightOf(start, i, |cuts| - 1))
  }

  /** The first m leaves of a row. */
  ghost predicate LeavesOk(pages: seq<Page>, table: seq<Entry>, start: nat, cuts: seq<nat>, m: nat)
    requires m < |cuts|
  {
    forall i :: 0 <= i < m ==> LeafOk(pages, table, start, cuts, i)
  }

  /** The leaf being filled: the last one of the row. */
  ghost predicate Filling(node: BLeafNode, table: seq<Entry>, start: nat, cuts: seq<nat>, blockLength: nat)
    reads node, node.key, node.id
  {
    && |cuts| >= 2 && cuts[|cuts| - 2] <= cuts[|cuts| - 1] <= |table|
    && node.Valid() && node.entries == table[cuts[|cuts| - 2]..cuts[|cuts| - 1]]
    && node.block == start + |cuts| - 2 && node.level == 0 && node.dirty
    && node.leftSibling == LeftOf(start, |cuts| - 2) && node.rightSibling == -1
    && node.capacity == LeafCapacity(blockLength) && node.capacityKeys == CapacityKeys(blockLength)
  }

  /** The i-th node of an index row over blocks with these first keys. */
  ghost predicate IndexOk(pages: seq<Page>, level: int, keys: seq<real>, lo: nat, start: nat, cuts: seq<nat>, i: nat)
    requires i + 1 < |cuts|
  {
    && start + i < |pages| && cuts[i] <= cuts[i + 1] <= |keys|
    && IndexAt(pages[start + i], level, keys[cuts[i]..cuts[i + 1]], lo + cuts[i], LeftOf(start, i),
               RightOf(start, i, |cuts| - 1))
  }

  ghost predicate IndexesOk(pages: seq<Page>, level: int, keys: seq<real>, lo: nat, start: nat, cuts: seq<nat>, m: nat)
    requires m < |cuts|
  {
    forall i :: 0 <= i < m ==> IndexOk(pages, level, keys, lo, start, cuts, i)
  }

  /** An index row over all blocks with these first keys, the first of them at lo. */
  ghost predicate IndexRow(pages: seq<Page>, level: int, keys: seq<real>, lo: nat, start: nat, cuts: seq<nat>,
                           capacity: int) {
    && capacity > 0 && Cuts(cuts, capacity) && cuts[|cuts| - 1] == |keys|
    && IndexesOk(pages, level, keys, lo, start, cuts, |cuts| - 1)
  }

  /** The index node being filled: the last one of the row. */
  ghost predicate IndexFilling(node: BIndexNode, level: int, keys: seq<real>, lo: nat, start: nat, cuts: seq<nat>,
                               blockLength: nat)
    reads node, node.key, node.son
  {
    && |cuts| >= 2 && cuts[|cuts| - 2] <= cuts[|cuts| - 1] <= |keys|
    && node.Valid() && node.block == start + |cuts| - 2 && node.dirty && node.capacity == IndexCapacity(blockLength)
    && node.Image() == Index(level, LeftOf(start, |cuts| - 2), -1, keys[cuts[|cuts| - 2]..cuts[|cuts| - 1]],
                             Blocks(lo + cuts[|cuts| - 2], cuts[|cuts| - 1] - cuts[|cuts| - 2]))
  }

  /** The key a node is known by to its parent. */
  ghost predicate KeyIs(page: Page, k: real) {
    match page
    case Raw => false
    case LeafPage(x) => |x.keys| > 0 && x.keys[0] == k
    case IndexPage(x) => |x.keys| > 0 && x.keys[0] == k
  }

  /** A block below a level: a leaf below level 1, an index node elsewhere. */
  ghost predicate ChildOk(pages: seq<Page>, level: int, block: nat, key: real) {
    && block < |pages| && KeyIs(pages[block], key)
    && (if level == 1 then pages[block].LeafPage? else pages[block].IndexPage?)
  }

  /** The blocks from lo on are nodes of one kind with these keys. */
  ghost predicate Childs(pages: seq<Page>, level: int, lo: nat, keys: seq<real>) {
    forall j :: 0 <= j < |keys| ==> ChildOk(pages, level, lo + j, keys[j])
  }

  class BTree {
    const blockLength: nat
    var file: seq<seq<Byte>>
    var root: int
    ghost var pages: seq<Page>

    constructor (blockLength: nat)
      ensures this.blockLength == blockLength && file == [] && pages == []
    {
      this.blockLength := blockLength;
      file, root, pages := [], -1, [];
    }

    ghost predicate Valid()
      reads this
    {
      && |file| == |pages|
      && forall i :: 0 <= i < |file| ==> |file[i]| == blockLength && Stored(file[i], pages[i])
    }

    method AppendBlock() returns (block: nat)
      requires Valid()
      modifies this`file, this`pages
      ensures Valid() && block == |old(file)| && pages == old(pages) + [Raw]
    {
      block := |file|;
      file := file + [seq(blockLength, _ => Blank)];
      pages := pages + [Raw];
    }

    /** The destructor of a leaf: a changed node is written to its block. */
    method DeleteLeaf(node: BLeafNode)
      requires Valid() && node.Valid() && node.dirty && 0 <= node.block < |file|
      requires LeafSize(node.capacityKeys, node.numEntries) <= blockLength
      requires node.capacityKeys == CapacityKeys(blockLength) && node.capacity == LeafCapacity(blockLength)
      modifies this`file, this`pages
      ensures Valid() && pages == old(pages)[node.block := LeafPage(node.Image())]
    {
      var buf := new Byte[blockLength](_ => Blank);
      node.WriteToBuffer(buf);
      file := file[node.block := buf[..]];
      pages := pages[node.block := LeafPage(node.Image())];
    }

    /** A row of leaves is being appended: all but the last are stored. */
    ghost predicate Building(table: seq<Entry>, start: nat, cuts: seq<nat>)
      reads this
    {
      && Valid() && LeafCapacity(blockLength) >= 100 && |cuts| >= 2 && cuts[0] == 0
      && |pages| == start + |cuts| - 1 && cuts[|cuts| - 1] <= |table|
      && CutsUpto(cuts, LeafCapacity(blockLength), |cuts| - 2)
      && LeavesOk(pages, table, start, cuts, |cuts| - 2)
    }

    /** The first leaf of the row. */
    method FirstLeaf(ghost table: seq<Entry>) returns (act: BLeafNode)
      requires Valid() && LeafCapacity(blockLength) >= 100
      modifies this`file, this`pages
      ensures fresh(act) && fresh(act.key) && fresh(act.id)
      ensures Building(table, |old(pages)|, [0, 0]) && Filling(act, table, |old(pages)|, [0, 0], blockLength)
      ensures pages[..|old(pages)|] == old(pages)
    {
      var block := AppendBlock();
      act := new BLeafNode.Init(0, blockLength, block);
    }

    /** A full leaf, or the last one, gets its right sibling and is stored. */
    method CloseLeaf(node: BLeafNode, right: int, ghost table: seq<Entry>, ghost start: nat, ghost cuts: seq<nat>)
      returns (ghost leaf: Leaf)
      requires Valid() && LeafCapacity(blockLength) >= 100 && 0 <= node.block < |pages|
      requires Filling(node, table, start, cuts, blockLength)
      modifies this`file, this`pages, node
      ensures Valid() && pages == old(pages)[start + |cuts| - 2 := LeafPage(leaf)]
      ensures LeafAt(LeafPage(leaf), table[cuts[|cuts| - 2]..cuts[|cuts| - 1]], LeftOf(start, |cuts| - 2), right)
    {
      node.rightSibling := right;
      CapacityFits(blockLength, node.numEntries);
      leaf := node.Image();
      assert node.key[..][..node.numKeys] == node.key[..node.numKeys];
      DeleteLeaf(node);
    }

    /** The next leaf of the row is appended and linked with the full one before it. */
    method NextLeaf(prev: BLeafNode, ghost table: seq<Entry>, ghost start: nat,
                    ghost cuts: seq<nat>) returns (act: BLeafNode)
      requires Building(table, start, cuts) && Filling(prev, table, start, cuts, blockLength) && prev.IsFull()
      modifies this`file, this`pages, prev
      ensures fresh(act) && fresh(act.key) && fresh(act.id)
      ensures Building(table, start, cuts + [cuts[|cuts| - 1]])
      ensures Filling(act, table, start, cuts + [cuts[|cuts| - 1]], blockLength)
      ensures pages[..start] == old(pages[..start])
    {
      assert cuts[|cuts| - 1] == cuts[|cuts| - 2] + LeafCapacity(blockLength);
      var block := AppendBlock();
      act := new BLeafNode.Init(0, blockLength, block);
      act.leftSibling := prev.block;
      ghost var leaf := CloseLeaf(prev, block, table, start, cuts);
      StoreLeaf(old(pages), pages, table, start, cuts, leaf, LeafCapacity(blockLength));
    }

    /** The next entry goes to the leaf being filled. */
    method AddToLeaf(act: BLeafNode, e: Entry, ghost table: seq<Entry>, ghost start: nat, ghost cuts: seq<nat>)
      requires Building(table, start, cuts) && Filling(act, table, start, cuts, blockLength) && !act.IsFull()
      requires cuts[|cuts| - 1] < |table| && e == table[cuts[|cuts| - 1]]
      modifies act, act.key, act.id
      ensures Building(table, start, cuts[|cuts| - 1 := cuts[|cuts| - 1] + 1])
      ensures Filling(act, table, start, cuts[|cuts| - 1 := cuts[|cuts| - 1] + 1], blockLength)
    {
      act.AddNewChild(e.id, e.key);
      OneMore(pages, table, start, cuts, LeafCapacity(blockLength));
    }

    /** A leaf that has become full is only kept for its right sibling. */
    method AddAndSwitch(node: BLeafNode, e: Entry, ghost table: seq<Entry>, ghost start: nat, ghost end: nat,
                        ghost cuts: seq<nat>)
      returns (act: BLeafNode?, prev: BLeafNode?)
      requires Building(table, start, cuts) && Filling(node, table, start, cuts, blockLength) && !node.IsFull()
      requires cuts[|cuts| - 1] < |table| && e == table[cuts[|cuts| - 1]] && end == start + |cuts| - 2
      modifies node, node.key, node.id
      ensures Started(act, prev, node, table, start, end, cuts[|cuts| - 1 := cuts[|cuts| - 1] + 1],
                      cuts[|cuts| - 1] + 1)
    {
      AddToLeaf(node, e, table, start, cuts);
      act, prev := node, null;
      if node.IsFull() {
        act, prev := null, node;
      }
    }

    /** One entry: a leaf is opened when none is being filled. */
    method LeafRound(act: BLeafNode?, prev: BLeafNode?, table: seq<Entry>, i: nat, start: nat, end: nat,
                     ghost cur: BLeafNode?, ghost cuts: seq<nat>)
      returns (act': BLeafNode?, prev': BLeafNode?, start': nat, end': nat, ghost cur': BLeafNode,
               ghost cuts': seq<nat>)
      requires i < |table| && LeafCapacity(blockLength) >= 100
      requires i == 0 ==> act == null && Valid()
      requires i > 0 ==> cur != null && Started(act, prev, cur, table, start, end, cuts, i)
      modifies this`file, this`pages, if i > 0 then {cur, cur.key, cur.id} else {}
      ensures Started(act', prev', cur', table, start', end', cuts', i + 1)
      ensures i > 0 && act != null ==> cur' == cur
      ensures i == 0 || act == null ==> fresh(cur') && fresh(cur'.key) && fresh(cur'.id)
      ensures i == 0 ==> start' == |old(pages)| && pages[..start'] == old(pages)
      ensures i > 0 ==> start' == start && pages[..start] == old(pages[..start])
    {
      var node := act;
      start', cuts' := start, cuts;
      if node == null {
        if i == 0 {
          node := FirstLeaf(table);
          start', cuts' := node.block, [0, 0];
        } else {
          node := NextLeaf(prev, table, start, cuts);
          cuts' := cuts + [cuts[|cuts| - 1]];
        }
        end' := node.block;
      } else {
        end' := end;
      }
      cur' := node;
      act', prev' := AddAndSwitch(node, table[i], table, start', end', cuts');
      cuts' := cuts'[|cuts'| - 1 := i + 1];
    }

    /** The level of the leaves: all entries in order, as many per leaf as fit. */
    method BuildLeaves(table: seq<Entry>) returns (start: nat, end: nat, ghost cuts: seq<nat>)
      requires Valid() && table != [] && LeafCapacity(blockLength) >= 100
      modifies this`file, this`pages
      ensures Valid() && LeafRow(pages, table, start, cuts, LeafCapacity(blockLength))
      ensures start == |old(pages)| && end == start + |cuts| - 2 && |pages| == end + 1
      ensures pages[..start] == old(pages)
    {
      var act: BLeafNode? := null;
      var prev: BLeafNode? := null;
      ghost var cur: BLeafNode? := null;
      start, end, cuts := 0, 0, [];
      var i := 0;
      while i < |table|
        invariant 0 <= i <= |table|
        invariant i == 0 ==> act == null && pages == old(pages) && Valid()
        invariant i > 0 ==> cur != null && Started(act, prev, cur, table, start, end, cuts, i)
        invariant i > 0 ==> fresh(cur) && fresh(cur.key) && fresh(cur.id)
        invariant i > 0 ==> start == |old(pages)| && pages[..start] == old(pages)
      {
        act, prev, start, end, cur, cuts := LeafRound(act, prev, table, i, start, end, cur, cuts);
        i := i + 1;
      }
      ghost var was := pages;
      ghost var leaf := CloseLeaf(if act != null then act else prev, -1, table, start, cuts);
      LastLeaf(was, pages, table, start, cuts, leaf, LeafCapacity(blockLength));
    }

    /** The leaf being filled is act, or prev if it is full. */
    ghost predicate Started(act: BLeafNode?, prev: BLeafNode?, cur: BLeafNode, table: seq<Entry>, start: nat, end: nat,
                            cuts: seq<nat>, i: nat)
      reads this, cur, cur.key, cur.id
    {
      && Building(table, start, cuts) && Filling(cur, table, start, cuts, blockLength)
      && cuts[|cuts| - 1] == i && end == start + |cuts| - 2 && cuts[|cuts| - 2] < i
      && (if act == null then prev == cur && cur.IsFull() else act == cur && prev == null && !cur.IsFull())
    }

    /** The destructor of an index node. */
    method DeleteIndex(node: BIndexNode)
      requires Valid() && node.Valid() && node.dirty && 0 <= node.block < |file|
      requires IndexSize(node.numEntries) <= blockLength && node.capacity == IndexCapacity(blockLength)
      modifies this`file, this`pages
      ensures Valid() && pages == old(pages)[node.block := IndexPage(node.Image())]
    {
      var buf := new Byte[blockLength](_ => Blank);
      node.WriteToBuffer(buf);
      file := file[node.block := buf[..]];
      pages := pages[node.block := IndexPage(node.Image())];
    }

    method ReadBlock(block: nat) returns (buf: array<Byte>)
      requires Valid() && block < |file|
      ensures fresh(buf) && buf[..] == file[block]
    {
      var bytes := file[block];
      buf := new Byte[blockLength](i requires 0 <= i < |bytes| => bytes[i]);
    }

    /** An index node read from its block. */
    method RestoreIndex(block: nat) returns (node: BIndexNode)
      requires Valid() && block < |pages| && pages[block].IndexPage? && IndexCapacity(blockLength) >= 50
      ensures fresh(node) && fresh(node.key) && fresh(node.son) && node.Valid() && node.Image() == pages[block].index
    {
      node := new BIndexNode.Init(-1, blockLength, block);
      node.dirty := false;
      var buf := ReadBlock(block);
      node.ReadFromBuffer(buf, pages[block].index);
    }

    /** A leaf read from its block. */
    method RestoreLeaf(block: nat) returns (node: BLeafNode)
      requires Valid() && block < |pages| && pages[block].LeafPage? && LeafCapacity(blockLength) >= 100
      ensures fresh(node) && fresh(node.key) && fresh(node.id)
      ensures node.numEntries <= node.id.Length && node.Image() == pages[block].leaf
    {
      node := new BLeafNode.Init(-1, blockLength, block);
      node.dirty := false;
      var buf := ReadBlock(block);
      node.ReadFromBuffer(buf, pages[block].leaf);
    }

    /** The key of a child, read from its block. */
    method GetKeyOfNode(level: int, block: nat, ghost k: real) returns (key: real)
      requires Valid() && LeafCapacity(blockLength) >= 100 && block < |pages| && KeyIs(pages[block], k)
      requires if level == 1 then pages[block].LeafPage? else pages[block].IndexPage?
      ensures key == k
    {
      CapacityFits(blockLength, 0);
      if level == 1 {
        var leafChild := RestoreLeaf(block);
        assert leafChild.Image().keys[0] == k;
        key := leafChild.key[0];
      } else {
        var indexChild := RestoreIndex(block);
        assert indexChild.Image().keys[0] == k;
        key := indexChild.key[0];
      }
    }

    /** A row of index nodes is being appended: all but the last are stored. */
    ghost predicate IndexBuilding(level: int, keys: seq<real>, lo: nat, start: nat, cuts: seq<nat>)
      reads this
    {
      && Valid() && LeafCapacity(blockLength) >= 100 && |cuts| >= 2 && cuts[0] == 0
      && |pages| == start + |cuts| - 1 && cuts[|cuts| - 1] <= |keys| && Childs(pages, level, lo, keys)
      && lo + |keys| <= start && CutsUpto(cuts, IndexCapacity(blockLength), |cuts| - 2)
      && IndexesOk(pages, level, keys, lo, start, cuts, |cuts| - 2)
    }

    method FirstIndex(level: int, ghost keys: seq<real>, ghost lo: nat) returns (act: BIndexNode)
      requires Valid() && LeafCapacity(blockLength) >= 100 && Childs(pages, level, lo, keys) && lo + |keys| <= |pages|
      modifies this`file, this`pages
      ensures fresh(act) && fresh(act.key) && fresh(act.son)
      ensures IndexBuilding(level, keys, lo, |old(pages)|, [0, 0])
      ensures IndexFilling(act, level, keys, lo, |old(pages)|, [0, 0], blockLength)
      ensures pages[..|old(pages)|] == old(pages)
    {
      CapacityFits(blockLength, 0);
      var block := AppendBlock();
      act := new BIndexNode.Init(level, blockLength, block);
    }

    /** A full index node, or the last one, gets its right sibling and is stored. */
    method CloseIndex(node: BIndexNode, right: int, ghost level: int, ghost keys: seq<real>, ghost lo: nat,
                      ghost start: nat,
                      ghost cuts: seq<nat>)
      returns (ghost page: Page)
      requires Valid() && LeafCapacity(blockLength) >= 100 && 0 <= node.block < |pages|
      requires IndexFilling(node, level, keys, lo, start, cuts, blockLength)
      modifies this`file, this`pages, node
      ensures Valid() && pages == old(pages)[start + |cuts| - 2 := page]
      ensures IndexAt(page, level, keys[cuts[|cuts| - 2]..cuts[|cuts| - 1]], lo + cuts[|cuts| - 2],
                      LeftOf(start, |cuts| - 2), right)
    {
      node.rightSibling := right;
      CapacityFits(blockLength, 0);
      page := IndexPage(node.Image());
      DeleteIndex(node);
    }

    method NextIndex(prev: BIndexNode, level: int, ghost keys: seq<real>, ghost lo: nat, ghost start: nat,
                     ghost cuts: seq<nat>)
      returns (act: BIndexNode)
      requires IndexBuilding(level, keys, lo, start, cuts) && prev.IsFull()
      requires IndexFilling(prev, level, keys, lo, start, cuts, blockLength)
      modifies this`file, this`pages, prev
      ensures fresh(act) && fresh(act.key) && fresh(act.son)
      ensures IndexBuilding(level, keys, lo, start, cuts + [cuts[|cuts| - 1]])
      ensures IndexFilling(act, level, keys, lo, start, cuts + [cuts[|cuts| - 1]], blockLength)
      ensures pages[..start] == old(pages[..start])
    {
      CapacityFits(blockLength, 0);
      assert prev.numEntries == |prev.Image().keys|;
      assert cuts[|cuts| - 1] == cuts[|cuts| - 2] + IndexCapacity(blockLength);
      var block := AppendBlock();
      act := new BIndexNode.Init(level, blockLength, block);
      act.leftSibling := prev.block;
      ghost var page := CloseIndex(prev, block, level, keys, lo, start, cuts);
      StoreIndex(old(pages), pages, level, keys, lo, start, cuts, page, IndexCapacity(blockLength));
    }

    method AddToIndex(act: BIndexNode, key: real, son: int, ghost level: int, ghost keys: seq<real>, ghost lo: nat,
                      ghost start: nat,
                      ghost cuts: seq<nat>)
      requires IndexBuilding(level, keys, lo, start, cuts) && !act.IsFull()
      requires IndexFilling(act, level, keys, lo, start, cuts, blockLength)
      requires cuts[|cuts| - 1] < |keys| && key == keys[cuts[|cuts| - 1]] && son == lo + cuts[|cuts| - 1]
      modifies act, act.key, act.son
      ensures IndexBuilding(level, keys, lo, start, cuts[|cuts| - 1 := cuts[|cuts| - 1] + 1])
      ensures IndexFilling(act, level, keys, lo, start, cuts[|cuts| - 1 := cuts[|cuts| - 1] + 1], blockLength)
    {
      assert act.numEntries == |act.Image().keys|;
      assert act.Image().keys == act.key[..act.numEntries] && act.Image().sons == act.son[..act.numEntries];
      act.AddNewChild(key, son);
      OneMoreIndex(pages, level, keys, lo, start, cuts, IndexCapacity(blockLength));
    }

    /** The index node being filled is act, or prev if it is full. */
    ghost predicate IndexStarted(act: BIndexNode?, prev: BIndexNode?, cur: BIndexNode, level: int, keys: seq<real>,
                                 lo: nat,
                                 start: nat, end: nat, cuts: seq<nat>, i: nat)
      reads this, cur, cur.key, cur.son
    {
      && IndexBuilding(level, keys, lo, start, cuts) && IndexFilling(cur, level, keys, lo, start, cuts, blockLength)
      && cuts[|cuts| - 1] == i && end == start + |cuts| - 2 && cuts[|cuts| - 2] < i
      && (if act == null then prev == cur && cur.IsFull() else act == cur && prev == null && !cur.IsFull())
    }

    method AddIndexAndSwitch(node: BIndexNode, key: real, son: int, ghost level: int, ghost keys: seq<real>,
                             ghost lo: nat,
                             ghost start: nat, ghost end: nat, ghost cuts: seq<nat>)
      returns (act: BIndexNode?, prev: BIndexNode?)
      requires IndexBuilding(level, keys, lo, start, cuts) && !node.IsFull()
      requires IndexFilling(node, level, keys, lo, start, cuts, blockLength) && end == start + |cuts| - 2
      requires cuts[|cuts| - 1] < |keys| && key == keys[cuts[|cuts| - 1]] && son == lo + cuts[|cuts| - 1]
      modifies node, node.key, node.son
      ensures IndexStarted(act, prev, node, level, keys, lo, start, end, cuts[|cuts| - 1 := cuts[|cuts| - 1] + 1],
                           cuts[|cuts| - 1] + 1)
    {
      AddToIndex(node, key, son, level, keys, lo, start, cuts);
      act, prev := node, null;
      if node.IsFull() {
        act, prev := null, node;
      }
    }

    method OpenIndex(prev: BIndexNode?, level: int, ghost keys: seq<real>, ghost lo: nat, i: nat, start: nat,
                     ghost cuts: seq<nat>)
      returns (node: BIndexNode, start': nat, ghost cuts': seq<nat>)
      requires i == 0 ==>
        Valid() && LeafCapacity(blockLength) >= 100 && Childs(pages, level, lo, keys) && lo + |keys| <= |pages|
      requires i > 0 ==>
        prev != null && IndexBuilding(level, keys, lo, start, cuts) && prev.IsFull() && cuts[|cuts| - 1] == i
      requires i > 0 ==> IndexFilling(prev, level, keys, lo, start, cuts, blockLength)
      modifies this`file, this`pages, if i > 0 then {prev} else {}
      ensures fresh(node) && fresh(node.key) && fresh(node.son)
      ensures IndexBuilding(level, keys, lo, start', cuts')
      ensures IndexFilling(node, level, keys, lo, start', cuts', blockLength)
      ensures cuts'[|cuts'| - 1] == cuts'[|cuts'| - 2] == i && !node.IsFull()
      ensures i == 0 ==> start' == |old(pages)| && pages[..start'] == old(pages)
      ensures i > 0 ==> start' == start && pages[..start] == old(pages[..start])
    {
      if i == 0 {
        node := FirstIndex(level, keys, lo);
        start', cuts' := node.block, [0, 0];
      } else {
        node := NextIndex(prev, level, keys, lo, start, cuts);
        start', cuts' := start, cuts + [cuts[|cuts| - 1]];
      }
    }

    /** One child: an index node is opened when none is being filled. */
    method IndexRound(act: BIndexNode?, prev: BIndexNode?, level: int, key: real, ghost keys: seq<real>, lo: nat,
                      i: nat,
                      start: nat, end: nat, ghost cur: BIndexNode?, ghost cuts: seq<nat>)
      returns (act': BIndexNode?, prev': BIndexNode?, start': nat, end': nat, ghost cur': BIndexNode,
               ghost cuts': seq<nat>)
      requires i < |keys| && key == keys[i] && LeafCapacity(blockLength) >= 100
      requires i == 0 ==> act == null && Valid() && Childs(pages, level, lo, keys) && lo + |keys| <= |pages|
      requires i > 0 ==> cur != null && IndexStarted(act, prev, cur, level, keys, lo, start, end, cuts, i)
      modifies this`file, this`pages, if i > 0 then {cur, cur.key, cur.son} else {}
      ensures IndexStarted(act', prev', cur', level, keys, lo, start', end', cuts', i + 1)
      ensures i > 0 && act != null ==> cur' == cur
      ensures i == 0 || act == null ==> fresh(cur') && fresh(cur'.key) && fresh(cur'.son)
      ensures i == 0 ==> start' == |old(pages)| && pages[..start'] == old(pages)
      ensures i > 0 ==> start' == start && pages[..start] == old(pages[..start])
    {
      hide Valid, Childs, CutsUpto, IndexesOk, Blocks, LeftOf, LeafCapacity, IndexCapacity;
      var node := act;
      start', cuts' := start, cuts;
      if node == null {
        node, start', cuts' := OpenIndex(prev, level, keys, lo, i, start, cuts);
        end' := node.block;
      } else {
        end' := end;
      }
      cur' := node;
      act', prev' := AddIndexAndSwitch(node, key, lo + i, level, keys, lo, start', end', cuts');
      cuts' := cuts'[|cuts'| - 1 := i + 1];
    }

    /** One index level over the blocks from lo to hi. */
    method BuildLevel(level: int, lo: nat, hi: nat, ghost keys: seq<real>) returns (start: nat, end: nat,
                      ghost cuts: seq<nat>)
      requires Valid() && LeafCapacity(blockLength) >= 100 && lo <= hi && hi == lo + |keys| - 1 && |pages| == hi + 1
      requires Childs(pages, level, lo, keys)
      modifies this`file, this`pages
      ensures Valid() && IndexRow(pages, level, keys, lo, start, cuts, IndexCapacity(blockLength))
      ensures start == hi + 1 && end == start + |cuts| - 2 && |pages| == end + 1
      ensures pages[..start] == old(pages)
    {
      var act: BIndexNode? := null;
      var prev: BIndexNode? := null;
      ghost var cur: BIndexNode? := null;
      start, end, cuts := 0, 0, [];
      var i := 0;
      while i < hi - lo + 1
        invariant 0 <= i <= |keys|
        invariant i == 0 ==> act == null && pages == old(pages) && Valid()
        invariant i > 0 ==> cur != null && IndexStarted(act, prev, cur, level, keys, lo, start, end, cuts, i)
        invariant i > 0 ==> fresh(cur) && fresh(cur.key) && fresh(cur.son)
        invariant i > 0 ==> start == |old(pages)| && pages[..start] == old(pages)
      {
        var key := GetKeyOfNode(level, lo + i, keys[i]);
        act, prev, start, end, cur, cuts := IndexRound(act, prev, level, key, keys, lo, i, start, end, cur, cuts);
        i := i + 1;
      }
      ghost var was := pages;
      ghost var page := CloseIndex(if act != null then act else prev, -1, level, keys, lo, start, cuts);
      LastIndex(was, pages, level, keys, lo, start, cuts, page, IndexCapacity(blockLength));
    }

    /** A new tree file: block 0 holds an empty index node. */
    method Init() returns (ok: bool)
      requires file == [] && pages == []
      modifies this
      ensures ok == (IndexCapacity(blockLength) >= 50)
      ensures ok ==> Valid() && |pages| == 1 && root == 0
    {
      if IndexCapacity(blockLength) < 50 {
        return false;
      }
      var block := AppendBlock();
      var node := new BIndexNode.Init(0, blockLength, block);
      root := node.block;
      DeleteIndex(node);
      ok := true;
    }

    /** Leaves, then level after level until one node is left: the root. */
    method Bulkload(table: seq<Entry>) returns (ok: bool, ghost rows: seq<Row>)
      requires Valid() && |pages| == 1
      modifies this`file, this`pages, this`root
      ensures Valid() && ok == (table == [] || LeafCapacity(blockLength) >= 100)
      ensures ok && table == [] ==> root == 0 && pages == old(pages)
      ensures ok && table != [] ==> TreeOk(pages, table, rows, root, blockLength) && rows[0].start == 1
    {
      rows := [];
      if table == [] {
        root := 0;
        return true, rows;
      }
      if LeafCapacity(blockLength) < 100 {
        return false, rows;
      }
      CapacityFits(blockLength, 0);
      ghost var cuts: seq<nat>;
      var start, end: nat;
      start, end, cuts := BuildLeaves(table);
      LeafRowKeys(pages, table, start, cuts, LeafCapacity(blockLength));
      rows := [Row(start, cuts, LeafKeys(table, cuts))];
      var level := 1;
      while end > start
        invariant Loaded(table, rows, start, end, level)
        decreases end - start
      {
        start, end, rows := AddLevel(table, rows, start, end, level);
        level := level + 1;
      }
      root := start;
      ok := true;
    }

    /** The levels so far; start and end are the blocks of the last one. */
    ghost predicate Loaded(table: seq<Entry>, rows: seq<Row>, start: nat, end: nat, level: nat)
      reads this
    {
      && Valid() && LeafCapacity(blockLength) >= 100 && level == |rows| > 0 && rows[0].start == 1
      && RowsOk(pages, table, rows, LeafCapacity(blockLength), IndexCapacity(blockLength))
      && start == rows[level - 1].start && end == start + |rows[level - 1].keys| - 1 && |pages| == end + 1
           && start <= end
    }

    method AddLevel(ghost table: seq<Entry>, ghost rows: seq<Row>, start: nat, end: nat, level: nat)
      returns (start': nat, end': nat, ghost rows': seq<Row>)
      requires Loaded(table, rows, start, end, level) && end > start
      modifies this`file, this`pages
      ensures Loaded(table, rows', start', end', level + 1)
      ensures end' - start' < end - start
    {
      ghost var cuts: seq<nat>;
      ghost var keys := rows[level - 1].keys;
      assert RowOk(pages, table, rows, level - 1, LeafCapacity(blockLength), IndexCapacity(blockLength));
      start', end', cuts := BuildLevel(level, start, end, keys);
      rows' := NextRows(old(pages), pages, table, rows, start', cuts, LeafCapacity(blockLength),
                        IndexCapacity(blockLength));
      CapacityFits(blockLength, 0);
      FewerNodes(cuts, IndexCapacity(blockLength), |cuts| - 2);
      assert Cut(cuts, IndexCapacity(blockLength), |cuts| - 2);
    }
  }

  /** The rows with the one just built over the last. */
  lemma {:induction false} NextRows(was: seq<Page>, pages: seq<Page>, table: seq<Entry>, rows: seq<Row>, start: nat,
                                    cuts: seq<nat>,
                                    leafCapacity: int, indexCapacity: int)
    returns (rows': seq<Row>)
    requires RowsOk(was, table, rows, leafCapacity, indexCapacity) && |was| <= |pages| && pages[..|was|] == was
    requires start == rows[|rows| - 1].start + |rows[|rows| - 1].keys|
    requires |pages| >= start + |cuts| - 1
    requires IndexRow(pages, |rows|, rows[|rows| - 1].keys, rows[|rows| - 1].start, start, cuts, indexCapacity)
    ensures |rows'| == |rows| + 1 && rows'[..|rows|] == rows && rows'[|rows|].start == start
    ensures |rows'[|rows|].keys| == |cuts| - 1
    ensures RowsOk(pages, table, rows', leafCapacity, indexCapacity)
  {
    IndexRowKeys(pages, |rows|, rows[|rows| - 1].keys, rows[|rows| - 1].start, start, cuts, indexCapacity);
    rows' := rows + [Row(start, cuts, IndexKeys(rows[|rows| - 1].keys, cuts))];
    forall k | 0 <= k < |rows'|
      ensures RowOk(pages, table, rows', k, leafCapacity, indexCapacity)
    {
      if k < |rows| {
        RowStays(was, pages, table, rows, rows', k, leafCapacity, indexCapacity);
      }
    }
  }

  lemma {:induction false} OneMoreIndex(pages: seq<Page>, level: int, keys: seq<real>, lo: nat, start: nat,
                                        cuts: seq<nat>,
                                        capacity: int)
    requires |cuts| >= 2 && capacity >= 0
    requires IndexesOk(pages, level, keys, lo, start, cuts, |cuts| - 2) && CutsUpto(cuts, capacity, |cuts| - 2)
    ensures IndexesOk(pages, level, keys, lo, start, cuts[|cuts| - 1 := cuts[|cuts| - 1] + 1], |cuts| - 2)
    ensures CutsUpto(cuts[|cuts| - 1 := cuts[|cuts| - 1] + 1], capacity, |cuts| - 2)
  {
    var next := cuts[|cuts| - 1 := cuts[|cuts| - 1] + 1];
    forall i | 0 <= i < |cuts| - 2
      ensures Cut(next, capacity, i) && IndexOk(pages, level, keys, lo, start, next, i)
    {
      assert Cut(cuts, capacity, i) && IndexOk(pages, level, keys, lo, start, cuts, i);
    }
  }

  lemma {:induction false} LastIndex(was: seq<Page>, pages: seq<Page>, level: int, keys: seq<real>, lo: nat, start: nat,
                                     cuts: seq<nat>, page: Page, capacity: int)
    requires |cuts| >= 2 && cuts[0] == 0 && |was| == start + |cuts| - 1 && capacity > 0
    requires cuts[|cuts| - 2] < cuts[|cuts| - 1] == |keys| && cuts[|cuts| - 1] <= cuts[|cuts| - 2] + capacity
    requires IndexesOk(was, level, keys, lo, start, cuts, |cuts| - 2) && CutsUpto(cuts, capacity, |cuts| - 2)
    requires pages == was[|was| - 1 := page]
    requires IndexAt(page, level, keys[cuts[|cuts| - 2]..cuts[|cuts| - 1]], lo + cuts[|cuts| - 2],
                     LeftOf(start, |cuts| - 2), -1)
    ensures IndexRow(pages, level, keys, lo, start, cuts, capacity) && pages[..start] == was[..start]
  {
    forall i | 0 <= i < |cuts| - 1
      ensures Cut(cuts, capacity, i) && IndexOk(pages, level, keys, lo, start, cuts, i)
    {
      if i < |cuts| - 2 {
        assert Cut(cuts, capacity, i) && IndexOk(was, level, keys, lo, start, cuts, i);
      }
    }
  }

  lemma {:induction false} StoreIndex(was: seq<Page>, pages: seq<Page>, level: int, keys: seq<real>, lo: nat,
                                      start: nat,
                                      cuts: seq<nat>, page: Page, capacity: int)
    requires |cuts| >= 2 && cuts[|cuts| - 2] <= cuts[|cuts| - 1] <= |keys| && |was| == start + |cuts| - 1
    requires lo + |keys| <= start
    requires IndexesOk(was, level, keys, lo, start, cuts, |cuts| - 2) && Childs(was, level, lo, keys)
    requires capacity > 0 && CutsUpto(cuts, capacity, |cuts| - 2) && cuts[|cuts| - 1] == cuts[|cuts| - 2] + capacity
    requires pages == (was + [Raw])[|was| - 1 := page]
    requires IndexAt(page, level, keys[cuts[|cuts| - 2]..cuts[|cuts| - 1]], lo + cuts[|cuts| - 2],
                     LeftOf(start, |cuts| - 2), |was|)
    ensures IndexesOk(pages, level, keys, lo, start, cuts + [cuts[|cuts| - 1]], |cuts| - 1)
    ensures Childs(pages, level, lo, keys)
    ensures CutsUpto(cuts + [cuts[|cuts| - 1]], capacity, |cuts| - 1)
    ensures pages[..start] == was[..start]
  {
    var next := cuts + [cuts[|cuts| - 1]];
    forall i | 0 <= i < |cuts| - 1
      ensures Cut(next, capacity, i)
    {
      if i < |cuts| - 2 {
        assert Cut(cuts, capacity, i);
      }
    }
    forall i | 0 <= i < |cuts| - 1
      ensures IndexOk(pages, level, keys, lo, start, next, i)
    {
      assert next[i] == cuts[i] && next[i + 1] == cuts[i + 1];
      if i < |cuts| - 2 {
        assert IndexOk(was, level, keys, lo, start, cuts, i);
      }
    }
  }

  /** The row of leaves over a table. */
  ghost predicate LeafRow(pages: seq<Page>, table: seq<Entry>, start: nat, cuts: seq<nat>, capacity: int) {
    && capacity > 0 && Cuts(cuts, capacity) && cuts[|cuts| - 1] == |table|
    && LeavesOk(pages, table, start, cuts, |cuts| - 1)
  }

  lemma {:induction false} OneMore(pages: seq<Page>, table: seq<Entry>, start: nat, cuts: seq<nat>, capacity: nat)
    requires |cuts| >= 2 && LeavesOk(pages, table, start, cuts, |cuts| - 2) && CutsUpto(cuts, capacity, |cuts| - 2)
    ensures LeavesOk(pages, table, start, cuts[|cuts| - 1 := cuts[|cuts| - 1] + 1], |cuts| - 2)
    ensures CutsUpto(cuts[|cuts| - 1 := cuts[|cuts| - 1] + 1], capacity, |cuts| - 2)
  {
    var next := cuts[|cuts| - 1 := cuts[|cuts| - 1] + 1];
    forall i | 0 <= i < |cuts| - 2
      ensures Cut(next, capacity, i) && LeafOk(pages, table, start, next, i)
    {
      assert Cut(cuts, capacity, i) && LeafOk(pages, table, start, cuts, i);
    }
  }

  /** Storing the last leaf completes the row. */
  lemma {:induction false} LastLeaf(was: seq<Page>, pages: seq<Page>, table: seq<Entry>, start: nat, cuts: seq<nat>,
                                    leaf: Leaf,
                                    capacity: nat)
    requires |cuts| >= 2 && cuts[0] == 0 && |was| == start + |cuts| - 1 && capacity > 0
    requires cuts[|cuts| - 2] < cuts[|cuts| - 1] == |table| && cuts[|cuts| - 1] <= cuts[|cuts| - 2] + capacity
    requires LeavesOk(was, table, start, cuts, |cuts| - 2) && CutsUpto(cuts, capacity, |cuts| - 2)
    requires pages == was[|was| - 1 := LeafPage(leaf)]
    requires LeafAt(LeafPage(leaf), table[cuts[|cuts| - 2]..cuts[|cuts| - 1]], LeftOf(start, |cuts| - 2), -1)
    ensures LeafRow(pages, table, start, cuts, capacity) && pages[..start] == was[..start]
  {
    forall i | 0 <= i < |cuts| - 1
      ensures Cut(cuts, capacity, i) && LeafOk(pages, table, start, cuts, i)
    {
      if i < |cuts| - 2 {
        assert Cut(cuts, capacity, i) && LeafOk(was, table, start, cuts, i);
      }
    }
  }

  /** The last leaf of a row is stored and an empty one appended. */
  lemma {:induction false} StoreLeaf(was: seq<Page>, pages: seq<Page>, table: seq<Entry>, start: nat, cuts: seq<nat>,
                                     leaf: Leaf,
                                     capacity: nat)
    requires |cuts| >= 2 && cuts[|cuts| - 2] <= cuts[|cuts| - 1] <= |table| && |was| == start + |cuts| - 1
    requires LeavesOk(was, table, start, cuts, |cuts| - 2)
    requires CutsUpto(cuts, capacity, |cuts| - 2)
    requires cuts[|cuts| - 1] == cuts[|cuts| - 2] + capacity && capacity > 0
    requires pages == (was + [Raw])[|was| - 1 := LeafPage(leaf)]
    requires LeafAt(LeafPage(leaf), table[cuts[|cuts| - 2]..cuts[|cuts| - 1]], LeftOf(start, |cuts| - 2), |was|)
    ensures LeavesOk(pages, table, start, cuts + [cuts[|cuts| - 1]], |cuts| - 1)
    ensures CutsUpto(cuts + [cuts[|cuts| - 1]], capacity, |cuts| - 1)
    ensures pages[..start] == was[..start]
  {
    var next := cuts + [cuts[|cuts| - 1]];
    forall i | 0 <= i < |cuts| - 1
      ensures Cut(next, capacity, i)
    {
      if i < |cuts| - 2 {
        assert Cut(cuts, capacity, i);
      }
    }
    forall i | 0 <= i < |cuts| - 1
      ensures LeafOk(pages, table, start, next, i)
    {
      assert next[i] == cuts[i] && next[i + 1] == cuts[i + 1];
      if i < |cuts| - 2 {
        assert LeafOk(was, table, start, cuts, i);
      }
    }
  }

  /** A level of the tree: its first block, what its nodes hold of the level below, and their keys. */
  datatype Row = Row(start: nat, cuts: seq<nat>, keys: seq<real>)

  /** Level k of a tree over a table; level 0 holds the entries, the others the nodes of the level below. */
  ghost predicate RowOk(pages: seq<Page>, table: seq<Entry>, rows: seq<Row>, k: nat, leafCapacity: int,
                        indexCapacity: int)
    requires k < |rows|
  {
    && |rows[k].keys| == |rows[k].cuts| - 1 && rows[k].start + |rows[k].keys| <= |pages|
    && Childs(pages, k + 1, rows[k].start, rows[k].keys)
    && (if k == 0 then LeafRow(pages, table, rows[0].start, rows[0].cuts, leafCapacity)
        else
          && rows[k].start == rows[k - 1].start + |rows[k - 1].keys|
          && IndexRow(pages, k, rows[k - 1].keys, rows[k - 1].start, rows[k].start, rows[k].cuts, indexCapacity))
  }

  ghost predicate RowsOk(pages: seq<Page>, table: seq<Entry>, rows: seq<Row>, leafCapacity: int, indexCapacity: int) {
    rows != [] && forall k :: 0 <= k < |rows| ==> RowOk(pages, table, rows, k, leafCapacity, indexCapacity)
  }

  /** The bulk-loaded tree: rows up to a single root. */
  ghost predicate TreeOk(pages: seq<Page>, table: seq<Entry>, rows: seq<Row>, root: int, blockLength: nat) {
    && LeafCapacity(blockLength) >= 100
    && RowsOk(pages, table, rows, LeafCapacity(blockLength), IndexCapacity(blockLength))
    && |rows[|rows| - 1].keys| == 1 && root == rows[|rows| - 1].start
  }

  /** Full nodes but the last: there are fewer nodes than items. */
  lemma {:induction false} FewerNodes(cuts: seq<nat>, capacity: nat, i: nat)
    requires Cuts(cuts, capacity) && capacity >= 2 && i < |cuts| - 1
    ensures cuts[i] >= 2 * i
  {
    if i > 0 {
      FewerNodes(cuts, capacity, i - 1);
      assert Cut(cuts, capacity, i - 1);
    }
  }

  /** Keys of the leaves of a row: those of their first entries. */
  function LeafKeys(table: seq<Entry>, cuts: seq<nat>): (keys: seq<real>)
    requires |cuts| >= 1 && forall i :: 0 <= i < |cuts| - 1 ==> cuts[i] < |table|
    ensures |keys| == |cuts| - 1
  {
    seq(|cuts| - 1, i requires 0 <= i < |cuts| - 1 => table[cuts[i]].key)
  }

  lemma {:induction false} LeafRowKeys(pages: seq<Page>, table: seq<Entry>, start: nat, cuts: seq<nat>, capacity: int)
    requires LeafRow(pages, table, start, cuts, capacity)
    ensures forall i :: 0 <= i < |cuts| - 1 ==> cuts[i] < |table|
    ensures Childs(pages, 1, start, LeafKeys(table, cuts))
  {
    forall i | 0 <= i < |cuts| - 1
      ensures cuts[i] < |table|
    {
      assert Cut(cuts, capacity, i) && LeafOk(pages, table, start, cuts, i);
    }
    var keys := LeafKeys(table, cuts);
    forall j | 0 <= j < |keys|
      ensures ChildOk(pages, 1, start + j, keys[j])
    {
      assert Cut(cuts, capacity, j) && LeafOk(pages, table, start, cuts, j);
      var leaf, entries := pages[start + j].leaf, table[cuts[j]..cuts[j + 1]];
      SegmentCover(|entries|);
      assert leaf.keys[..leaf.numKeys][0] == SparseKeys(entries)[0];
    }
  }

  /** Keys of the nodes of an index row: those of their first children. */
  function IndexKeys(keys: seq<real>, cuts: seq<nat>): (own: seq<real>)
    requires |cuts| >= 1 && forall i :: 0 <= i < |cuts| - 1 ==> cuts[i] < |keys|
    ensures |own| == |cuts| - 1
  {
    seq(|cuts| - 1, i requires 0 <= i < |cuts| - 1 => keys[cuts[i]])
  }

  lemma {:induction false} IndexRowKeys(pages: seq<Page>, level: nat, keys: seq<real>, lo: nat, start: nat,
                                        cuts: seq<nat>, capacity: int)
    requires IndexRow(pages, level, keys, lo, start, cuts, capacity) && level >= 1
    ensures forall i :: 0 <= i < |cuts| - 1 ==> cuts[i] < |keys|
    ensures Childs(pages, level + 1, start, IndexKeys(keys, cuts))
  {
    forall i | 0 <= i < |cuts| - 1
      ensures cuts[i] < |keys|
    {
      assert Cut(cuts, capacity, i) && IndexOk(pages, level, keys, lo, start, cuts, i);
    }
    var own := IndexKeys(keys, cuts);
    forall j | 0 <= j < |own|
      ensures ChildOk(pages, level + 1, start + j, own[j])
    {
      assert Cut(cuts, capacity, j) && IndexOk(pages, level, keys, lo, start, cuts, j);
    }
  }

  lemma {:induction false} IndexesStay(was: seq<Page>, pages: seq<Page>, level: int, keys: seq<real>, lo: nat,
                                       start: nat, cuts: seq<nat>)
    requires |cuts| > 0 && IndexesOk(was, level, keys, lo, start, cuts, |cuts| - 1)
    requires |was| <= |pages| && forall i :: 0 <= i < |was| ==> pages[i] == was[i]
    ensures IndexesOk(pages, level, keys, lo, start, cuts, |cuts| - 1)
  {
    forall i | 0 <= i < |cuts| - 1
      ensures IndexOk(pages, level, keys, lo, start, cuts, i)
    {
      assert IndexOk(was, level, keys, lo, start, cuts, i);
    }
  }

  /** Appending blocks leaves a row as it is. */
  lemma {:induction false} RowStays(was: seq<Page>, pages: seq<Page>, table: seq<Entry>, rows: seq<Row>,
                                    rows': seq<Row>, k: nat,
                                    leafCapacity: int, indexCapacity: int)
    requires k < |rows| <= |rows'| && rows'[..|rows|] == rows && RowOk(was, table, rows, k, leafCapacity, indexCapacity)
    requires |was| <= |pages| && pages[..|was|] == was
    ensures RowOk(pages, table, rows', k, leafCapacity, indexCapacity)
  {
    forall i | 0 <= i < |was|
      ensures pages[i] == was[i]
    {
      assert pages[..|was|][i] == was[i];
    }
    assert rows'[k] == rows[k] && (k > 0 ==> rows'[k - 1] == rows[k - 1]);
    var row := rows[k];
    forall j | 0 <= j < |row.keys|
      ensures ChildOk(pages, k + 1, row.start + j, row.keys[j])
    {
      assert ChildOk(was, k + 1, row.start + j, row.keys[j]);
    }
    if k == 0 {
      forall i | 0 <= i < |row.cuts| - 1
        ensures LeafOk(pages, table, row.start, row.cuts, i)
      {
        assert LeafOk(was, table, row.start, row.cuts, i);
      }
    } else {
      IndexesStay(was, pages, k, rows[k - 1].keys, rows[k - 1].start, row.start, row.cuts);
    }
  }
}
