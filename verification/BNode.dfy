/**
 Nodes of the disk B-tree and their pages. A leaf stores the ids of its entries and one
 key per segment of 1024 entries; an index node stores a key and a block per child.
 */
module BNodes {

  const SIZEINT: nat := 4
  const SIZEFLOAT: nat := 4
  const SIZECHAR: nat := 1
  const INDEX_SIZE_LEAF_NODE: nat := 4096
  const MINREAL: real := -340282346600000000000000000000000000000.0
  const HEADER_SIZE: nat := SIZECHAR + 3 * SIZEINT

  /** The ids that fill INDEX_SIZE_LEAF_NODE bytes. */
  const INCREMENT: nat := 1024

  /** The keys a leaf page can hold: one per started 4096 bytes. */
  function CapacityKeys(blockLength: nat): nat {
    (blockLength + INDEX_SIZE_LEAF_NODE - 1) / INDEX_SIZE_LEAF_NODE
  }

  /** The entries a leaf page can hold. */
  function LeafCapacity(blockLength: nat): int {
    (blockLength - HEADER_SIZE - (CapacityKeys(blockLength) * SIZEFLOAT + SIZEINT)) / SIZEINT
  }

  /** The children an index page can hold. */
  function IndexCapacity(blockLength: nat): int {
    (blockLength - HEADER_SIZE) / (SIZEFLOAT + SIZEINT)
  }

  /** The number of segments of n entries. */
  function Segments(n: nat): nat {
    (n + INCREMENT - 1) / INCREMENT
  }

  /**
   A page that holds 100 entries: its keys suffice for all its segments, a full leaf
   fits the page, and index nodes of that page size are large enough too.
   */
  lemma CapacityFits(blockLength: nat, n: nat)
    requires LeafCapacity(blockLength) >= 100 && n <= LeafCapacity(blockLength)
    ensures Segments(n) <= CapacityKeys(blockLength)
    ensures LeafSize(CapacityKeys(blockLength), n) <= blockLength
    ensures IndexCapacity(blockLength) >= 50
    ensures forall m: nat :: m <= IndexCapacity(blockLength) ==> IndexSize(m) <= blockLength
  {
  }

  /** The bytes of a leaf with all key places and n entries. */
  function LeafSize(capacityKeys: nat, n: nat): nat {
    HEADER_SIZE + SIZEINT + SIZEFLOAT * capacityKeys + SIZEINT * n
  }

  function IndexSize(n: nat): nat {
    HEADER_SIZE + (SIZEFLOAT + SIZEINT) * n
  }

  /** Entry n starts a segment exactly when it is a multiple of 1024. */
  lemma {:induction false} SegmentStart(n: nat)
    ensures (n * SIZEINT) % INDEX_SIZE_LEAF_NODE == 0 <==> n == INCREMENT * Segments(n)
    ensures Segments(n + 1) == if n == INCREMENT * Segments(n) then Segments(n) + 1 else Segments(n)
  {
    SegmentsValue(n, n / 1024, n % 1024);
    if n % 1024 < 1023 {
      SegmentsValue(n + 1, n / 1024, n % 1024 + 1);
    } else {
      SegmentsValue(n + 1, n / 1024 + 1, 0);
    }
  }

  lemma {:induction false} SegmentCover(n: nat)
    ensures n <= INCREMENT * Segments(n) < n + INCREMENT
  {
    SegmentsValue(n, n / 1024, n % 1024);
  }

  lemma SegmentsValue(n: nat, q: nat, r: nat)
    requires n == 1024 * q + r && r < 1024
    ensures Segments(n) == if r == 0 then q else q + 1
    ensures (n * SIZEINT) % INDEX_SIZE_LEAF_NODE == 4 * r
  {
  }

  /** One byte of a value that was copied into a page. */
  datatype Byte = IntByte(n: int, k: nat) | RealByte(r: real, k: nat) | CharByte(c: int) | Blank

  function IntBytes(n: int): (b: seq<Byte>)
    ensures |b| == SIZEINT
  {
    [IntByte(n, 0), IntByte(n, 1), IntByte(n, 2), IntByte(n, 3)]
  }

  function RealBytes(r: real): (b: seq<Byte>)
    ensures |b| == SIZEFLOAT
  {
    [RealByte(r, 0), RealByte(r, 1), RealByte(r, 2), RealByte(r, 3)]
  }

  /** Bytes followed by these reals. */
  function AddReals(bytes: seq<Byte>, s: seq<real>): (b: seq<Byte>)
    ensures |b| == |bytes| + SIZEFLOAT * |s|
  {
    if s == [] then bytes else AddReals(bytes, s[..|s| - 1]) + RealBytes(s[|s| - 1])
  }

  function AddInts(bytes: seq<Byte>, s: seq<int>): (b: seq<Byte>)
    ensures |b| == |bytes| + SIZEINT * |s|
  {
    if s == [] then bytes else AddInts(bytes, s[..|s| - 1]) + IntBytes(s[|s| - 1])
  }

  /** Level, number of entries, left and right sibling. */
  function HeaderBytes(level: int, n: int, left: int, right: int): (b: seq<Byte>)
    ensures |b| == HEADER_SIZE
  {
    [CharByte(level)] + IntBytes(n) + IntBytes(left) + IntBytes(right)
  }

  /** What a leaf holds. */
  datatype Leaf = Leaf(level: int, left: int, right: int, numKeys: int, keys: seq<real>, ids: seq<int>)

  function LeafBytes(x: Leaf): (b: seq<Byte>)
    ensures |b| == LeafSize(|x.keys|, |x.ids|)
  {
    AddInts(AddReals(HeaderBytes(x.level, |x.ids|, x.left, x.right) + IntBytes(x.numKeys), x.keys), x.ids)
  }

  /** The page begins with these bytes. */
  ghost predicate Begins(buf: seq<Byte>, bytes: seq<Byte>) {
    |bytes| <= |buf| && buf[..|bytes|] == bytes
  }

  /** These bytes stand at offset i. */
  ghost predicate At(buf: seq<Byte>, i: nat, part: seq<Byte>) {
    i + |part| <= |buf| && buf[i..i + |part|] == part
  }

  lemma {:induction false} BeginsParts(buf: seq<Byte>, a: seq<Byte>, b: seq<Byte>)
    requires Begins(buf, a + b)
    ensures Begins(buf, a) && At(buf, |a|, b)
  {
    var s := buf[..|a| + |b|];
    assert s[..|a|] == buf[..|a|] && s[|a|..] == buf[|a|..|a| + |b|];
    assert (a + b)[..|a|] == a && (a + b)[|a|..] == b;
  }

  lemma {:induction false} HeaderParts(buf: seq<Byte>, level: int, n: int, left: int, right: int)
    requires Begins(buf, HeaderBytes(level, n, left, right))
    ensures buf[0] == CharByte(level) && At(buf, 1, IntBytes(n)) && At(buf, 5, IntBytes(left))
    ensures At(buf, 9, IntBytes(right))
  {
    BeginsParts(buf, [CharByte(level)] + IntBytes(n) + IntBytes(left), IntBytes(right));
    BeginsParts(buf, [CharByte(level)] + IntBytes(n), IntBytes(left));
    BeginsParts(buf, [CharByte(level)], IntBytes(n));
  }

  /** The j-th real stands behind the ones before it. */
  lemma {:induction false} RealAt(buf: seq<Byte>, bytes: seq<Byte>, s: seq<real>, j: nat)
    requires Begins(buf, AddReals(bytes, s)) && j < |s|
    ensures At(buf, |bytes| + SIZEFLOAT * j, RealBytes(s[j]))
  {
    var front := s[..|s| - 1];
    BeginsParts(buf, AddReals(bytes, front), RealBytes(s[|s| - 1]));
    if j < |front| {
      RealAt(buf, bytes, front, j);
    }
  }

  lemma {:induction false} BeforeReals(buf: seq<Byte>, bytes: seq<Byte>, s: seq<real>)
    requires Begins(buf, AddReals(bytes, s))
    ensures Begins(buf, bytes)
  {
    if s != [] {
      var front := s[..|s| - 1];
      BeginsParts(buf, AddReals(bytes, front), RealBytes(s[|s| - 1]));
      BeforeReals(buf, bytes, front);
    }
  }

  lemma {:induction false} IntAt(buf: seq<Byte>, bytes: seq<Byte>, s: seq<int>, j: nat)
    requires Begins(buf, AddInts(bytes, s)) && j < |s|
    ensures At(buf, |bytes| + SIZEINT * j, IntBytes(s[j]))
  {
    var front := s[..|s| - 1];
    BeginsParts(buf, AddInts(bytes, front), IntBytes(s[|s| - 1]));
    if j < |front| {
      IntAt(buf, bytes, front, j);
    }
  }

  /** The header: the level in one byte, then number of entries, left and right sibling in four bytes each. */
  ghost predicate HeaderAt(buf: seq<Byte>, level: int, n: int, left: int, right: int) {
    && 0 < |buf| && buf[0] == CharByte(level) && At(buf, 1, IntBytes(n)) && At(buf, 5, IntBytes(left))
    && At(buf, 9, IntBytes(right))
  }

  /** Where the parts of a leaf stand in its page. */
  lemma {:induction false} LeafLayout(buf: seq<Byte>, x: Leaf)
    requires Begins(buf, LeafBytes(x))
    ensures HeaderAt(buf, x.level, |x.ids|, x.left, x.right) && At(buf, 13, IntBytes(x.numKeys))
    ensures forall j :: 0 <= j < |x.keys| ==> At(buf, 17 + 4 * j, RealBytes(x.keys[j]))
    ensures forall j :: 0 <= j < |x.ids| ==> At(buf, 17 + 4 * |x.keys| + 4 * j, IntBytes(x.ids[j]))
  {
    var header := HeaderBytes(x.level, |x.ids|, x.left, x.right);
    var head := header + IntBytes(x.numKeys);
    var most := AddReals(head, x.keys);
    BeforeInts(buf, most, x.ids);
    BeforeReals(buf, head, x.keys);
    BeginsParts(buf, header, IntBytes(x.numKeys));
    HeaderParts(buf, x.level, |x.ids|, x.left, x.right);
    hide HeaderAt, At, Begins;
    forall j | 0 <= j < |x.keys|
      ensures At(buf, 17 + 4 * j, RealBytes(x.keys[j]))
    {
      RealAt(buf, head, x.keys, j);
    }
    forall j | 0 <= j < |x.ids|
      ensures At(buf, 17 + 4 * |x.keys| + 4 * j, IntBytes(x.ids[j]))
    {
      IntAt(buf, most, x.ids, j);
    }
  }

  lemma {:induction false} BeforeInts(buf: seq<Byte>, bytes: seq<Byte>, s: seq<int>)
    requires Begins(buf, AddInts(bytes, s))
    ensures Begins(buf, bytes)
  {
    if s != [] {
      var front := s[..|s| - 1];
      BeginsParts(buf, AddInts(bytes, front), IntBytes(s[|s| - 1]));
      BeforeInts(buf, bytes, front);
    }
  }

  method PutInt(buf: array<Byte>, i: nat, n: int) returns (next: nat)
    requires i + SIZEINT <= buf.Length
    modifies buf
    ensures next == i + SIZEINT && buf[..next] == old(buf[..i]) + IntBytes(n)
  {
    buf[i], buf[i + 1], buf[i + 2], buf[i + 3] := IntByte(n, 0), IntByte(n, 1), IntByte(n, 2), IntByte(n, 3);
    next := i + SIZEINT;
  }

  method PutReal(buf: array<Byte>, i: nat, r: real) returns (next: nat)
    requires i + SIZEFLOAT <= buf.Length
    modifies buf
    ensures next == i + SIZEFLOAT && buf[..next] == old(buf[..i]) + RealBytes(r)
  {
    buf[i], buf[i + 1], buf[i + 2], buf[i + 3] := RealByte(r, 0), RealByte(r, 1), RealByte(r, 2), RealByte(r, 3);
    next := i + SIZEFLOAT;
  }

  method PutHeader(buf: array<Byte>, level: int, n: int, left: int, right: int) returns (next: nat)
    requires HEADER_SIZE <= buf.Length
    modifies buf
    ensures next == HEADER_SIZE && buf[..next] == HeaderBytes(level, n, left, right)
  {
    buf[0] := CharByte(level);
    next := SIZECHAR;
    assert buf[..1] == [CharByte(level)];
    next := PutInt(buf, next, n);
    next := PutInt(buf, next, left);
    next := PutInt(buf, next, right);
  }

  /** The integer at an offset where one was put. */
  method GetInt(buf: array<Byte>, i: nat, ghost n: int) returns (r: int)
    requires At(buf[..], i, IntBytes(n))
    ensures r == n
  {
    assert buf[i] == buf[..][i..i + SIZEINT][0];
    r := buf[i].n;
  }

  method GetReal(buf: array<Byte>, i: nat, ghost x: real) returns (r: real)
    requires At(buf[..], i, RealBytes(x))
    ensures r == x
  {
    assert buf[i] == buf[..][i..i + SIZEFLOAT][0];
    r := buf[i].r;
  }

  /** An entry of a tree: an object and its hash value. */
  datatype Entry = Entry(id: int, key: real)

  /** The keys that start the segments of a run of entries. */
  function SparseKeys(entries: seq<Entry>): (k: seq<real>)
    ensures |k| == Segments(|entries|)
  {
    seq(Segments(|entries|), j requires 0 <= j < Segments(|entries|) =>
      assert INCREMENT * j < |entries| by { SegmentBound(|entries|, j); }
      entries[INCREMENT * j].key)
  }

  lemma {:induction false} SegmentBound(n: nat, j: nat)
    requires j < Segments(n)
    ensures INCREMENT * j < n
  {
    SegmentCover(n);
  }

  function Ids(entries: seq<Entry>): (ids: seq<int>)
    ensures |ids| == |entries|
  {
    seq(|entries|, i requires 0 <= i < |entries| => entries[i].id)
  }

  /** A leaf gets its next entry. */
  lemma {:induction false} AppendEntry(entries: seq<Entry>, e: Entry)
    ensures Ids(entries + [e]) == Ids(entries) + [e.id]
    ensures SparseKeys(entries + [e]) ==
      if |entries| == INCREMENT * Segments(|entries|) then SparseKeys(entries) + [e.key] else SparseKeys(entries)
  {
    SegmentStart(|entries|);
    forall j | 0 <= j < Segments(|entries|)
      ensures SparseKeys(entries + [e])[j] == SparseKeys(entries)[j]
    {
      SegmentBound(|entries|, j);
    }
  }

  /** A leaf in memory. */
  class BLeafNode {
    var level: int
    var numEntries: nat
    var leftSibling: int
    var rightSibling: int
    var block: int
    var dirty: bool
    const capacity: int
    const capacityKeys: nat
    var numKeys: nat
    const key: array<real>
    const id: array<int>
    ghost var entries: seq<Entry>  // the entries that were added, with all keys

    /** key and id hold the sparse keys and the ids of the entries. */
    ghost predicate Valid()
      reads this, key, id
    {
      && key.Length == capacityKeys && id.Length == capacity && numEntries == |entries| <= capacity
      && numKeys == Segments(numEntries) <= capacityKeys && Segments(capacity) <= capacityKeys
      && key[..numKeys] == SparseKeys(entries) && id[..numEntries] == Ids(entries)
    }

    /** An empty leaf for a page of this size. */
    constructor Init(level: int, blockLength: nat, block: int)
      requires LeafCapacity(blockLength) >= 100
      ensures Valid() && fresh(key) && fresh(id) && entries == [] && dirty
      ensures this.level == level && this.block == block && leftSibling == rightSibling == -1
      ensures capacity == LeafCapacity(blockLength) && capacityKeys == CapacityKeys(blockLength)
    {
      CapacityFits(blockLength, LeafCapacity(blockLength));
      this.level, this.block, dirty := level, block, true;
      numEntries, numKeys, leftSibling, rightSibling := 0, 0, -1, -1;
      capacity, capacityKeys := LeafCapacity(blockLength), CapacityKeys(blockLength);
      key := new real[CapacityKeys(blockLength)](_ => MINREAL);
      id := new int[LeafCapacity(blockLength)](_ => -1);
      entries := [];
    }

    predicate IsFull()
      reads this
    {
      numEntries >= capacity
    }

    /** The next entry; a key is stored with the first entry of every segment. */
    method AddNewChild(newId: int, newKey: real)
      requires Valid() && !IsFull()
      modifies this`numEntries, this`numKeys, this`dirty, this`entries, key, id
      ensures Valid() && entries == old(entries) + [Entry(newId, newKey)] && dirty
    {
      var e := Entry(newId, newKey);
      AppendEntry(entries, e);
      SegmentStart(numEntries);
      SegmentsMonotone(numEntries + 1, capacity);
      id[numEntries] := newId;
      if (numEntries * SIZEINT) % INDEX_SIZE_LEAF_NODE == 0 {
        key[numKeys] := newKey;
        numKeys := numKeys + 1;
      }
      numEntries := numEntries + 1;
      entries := entries + [e];
      dirty := true;
    }

    /** What the node holds. */
    ghost function Image(): Leaf
      reads this, key, id
      requires numEntries <= id.Length
    {
      Leaf(level, leftSibling, rightSibling, numKeys, key[..], id[..numEntries])
    }

    /** The node as bytes, all key places included. */
    method WriteToBuffer(buf: array<Byte>)
      requires Valid() && buf.Length >= LeafSize(capacityKeys, numEntries)
      modifies buf
      ensures Begins(buf[..], LeafBytes(Image()))
    {
      var i := PutHeader(buf, level, numEntries, leftSibling, rightSibling);
      i := PutInt(buf, i, numKeys);
      i := WriteKeys(buf, i);
      i := WriteIds(buf, i);
      assert id[..numEntries] == Image().ids;
      assert buf[..][..i] == buf[..i];
    }

    method WriteKeys(buf: array<Byte>, at: nat) returns (i: nat)
      requires Valid() && buf.Length >= at + SIZEFLOAT * capacityKeys
      modifies buf
      ensures i == at + SIZEFLOAT * capacityKeys && buf[..i] == AddReals(old(buf[..at]), key[..])
    {
      i := at;
      var j := 0;
      while j < capacityKeys
        invariant 0 <= j <= capacityKeys && i == at + SIZEFLOAT * j
        invariant buf[..i] == AddReals(old(buf[..at]), key[..j])
      {
        assert key[..j + 1][..j] == key[..j];
        i := PutReal(buf, i, key[j]);
        j := j + 1;
      }
      assert key[..j] == key[..];
    }

    method WriteIds(buf: array<Byte>, at: nat) returns (i: nat)
      requires Valid() && buf.Length >= at + SIZEINT * numEntries
      modifies buf
      ensures i == at + SIZEINT * numEntries && buf[..i] == AddInts(old(buf[..at]), id[..numEntries])
    {
      i := at;
      var j := 0;
      while j < numEntries
        invariant 0 <= j <= numEntries && i == at + SIZEINT * j
        invariant buf[..i] == AddInts(old(buf[..at]), id[..j])
      {
        assert id[..j + 1][..j] == id[..j];
        i := PutInt(buf, i, id[j]);
        j := j + 1;
      }
    }

    /** The fields that were written to a page of the same size. */
    method ReadFromBuffer(buf: array<Byte>, ghost x: Leaf)
      requires key.Length == capacityKeys == |x.keys| && |x.ids| <= id.Length && x.numKeys >= 0
      requires Begins(buf[..], LeafBytes(x))
      modifies this`level, this`numEntries, this`leftSibling, this`rightSibling, this`numKeys, key, id
      ensures numEntries == |x.ids| && Image() == x
    {
      ghost var header := HeaderBytes(x.level, |x.ids|, x.left, x.right);
      ghost var keysEnd := AddReals(header + IntBytes(x.numKeys), x.keys);
      BeforeInts(buf[..], keysEnd, x.ids);
      BeforeReals(buf[..], header + IntBytes(x.numKeys), x.keys);
      BeginsParts(buf[..], header, IntBytes(x.numKeys));
      HeaderParts(buf[..], x.level, |x.ids|, x.left, x.right);
      level := buf[0].c;
      var i := SIZECHAR;
      numEntries := GetInt(buf, i, |x.ids|);
      i := i + SIZEINT;
      leftSibling := GetInt(buf, i, x.left);
      i := i + SIZEINT;
      rightSibling := GetInt(buf, i, x.right);
      i := i + SIZEINT;
      numKeys := GetInt(buf, i, x.numKeys);
      i := i + SIZEINT;
      i := ReadKeys(buf, i, header + IntBytes(x.numKeys), x.keys);
      ReadIds(buf, i, keysEnd, x.ids);
    }

    method ReadKeys(buf: array<Byte>, at: nat, ghost bytes: seq<Byte>, ghost keys: seq<real>) returns (i: nat)
      requires key.Length == capacityKeys == |keys| && at == |bytes| && Begins(buf[..], AddReals(bytes, keys))
      modifies key
      ensures i == at + SIZEFLOAT * capacityKeys && key[..] == keys
    {
      i := at;
      var j := 0;
      while j < capacityKeys
        invariant 0 <= j <= capacityKeys && i == at + SIZEFLOAT * j && key[..j] == keys[..j]
      {
        RealAt(buf[..], bytes, keys, j);
        key[j] := GetReal(buf, i, keys[j]);
        i := i + SIZEFLOAT;
        j := j + 1;
      }
    }

    method ReadIds(buf: array<Byte>, at: nat, ghost bytes: seq<Byte>, ghost ids: seq<int>)
      requires numEntries == |ids| <= id.Length && at == |bytes| && Begins(buf[..], AddInts(bytes, ids))
      modifies id
      ensures id[..numEntries] == ids
    {
      var i := at;
      var j := 0;
      while j < numEntries
        invariant 0 <= j <= numEntries && i == at + SIZEINT * j && id[..j] == ids[..j]
      {
        IntAt(buf[..], bytes, ids, j);
        id[j] := GetInt(buf, i, ids[j]);
        i := i + SIZEINT;
        j := j + 1;
      }
    }
  }

  /** A leaf written to its page and read back has the same fields. */
  method ReloadLeaf(node: BLeafNode, blockLength: nat) returns (copy: BLeafNode)
    requires node.Valid() && node.capacity == LeafCapacity(blockLength) >= 100
    requires node.capacityKeys == CapacityKeys(blockLength)
    ensures fresh(copy) && copy.Valid() && copy.entries == node.entries && copy.Image() == node.Image()
  {
    CapacityFits(blockLength, node.numEntries);
    var buf := new Byte[blockLength](_ => Blank);
    node.WriteToBuffer(buf);
    copy := new BLeafNode.Init(-1, blockLength, node.block);
    copy.ReadFromBuffer(buf, node.Image());
    copy.entries := node.entries;
    assert copy.key[..copy.numKeys] == copy.key[..][..copy.numKeys];
    assert node.key[..node.numKeys] == node.key[..][..node.numKeys];
  }

  lemma {:induction false} SegmentsMonotone(m: nat, n: nat)
    requires m <= n
    ensures Segments(m) <= Segments(n)
  {
    SegmentCover(m);
    SegmentCover(n);
    FewerSegments(m, n, Segments(m), Segments(n));
  }

  lemma FewerSegments(m: nat, n: nat, a: nat, b: nat)
    requires m <= n <= INCREMENT * b && INCREMENT * a < m + INCREMENT
    ensures a <= b
  {
  }

  /** What an index node holds. */
  datatype Index = Index(level: int, left: int, right: int, keys: seq<real>, sons: seq<int>)

  /** Bytes followed by the keys and sons in turn. */
  function AddPairs(bytes: seq<Byte>, keys: seq<real>, sons: seq<int>): (b: seq<Byte>)
    requires |keys| == |sons|
    ensures |b| == |bytes| + (SIZEFLOAT + SIZEINT) * |keys|
  {
    if keys == [] then bytes
    else
      var n := |keys| - 1;
      AddPairs(bytes, keys[..n], sons[..n]) + RealBytes(keys[n]) + IntBytes(sons[n])
  }

  function IndexBytes(x: Index): (b: seq<Byte>)
    requires |x.keys| == |x.sons|
    ensures |b| == IndexSize(|x.keys|)
  {
    AddPairs(HeaderBytes(x.level, |x.keys|, x.left, x.right), x.keys, x.sons)
  }

  lemma {:induction false} BeforePairs(buf: seq<Byte>, bytes: seq<Byte>, keys: seq<real>, sons: seq<int>)
    requires |keys| == |sons| && Begins(buf, AddPairs(bytes, keys, sons))
    ensures Begins(buf, bytes)
  {
    if keys != [] {
      LastPair(buf, bytes, keys, sons);
      BeforePairs(buf, bytes, keys[..|keys| - 1], sons[..|keys| - 1]);
    }
  }

  lemma {:induction false} LastPair(buf: seq<Byte>, bytes: seq<Byte>, keys: seq<real>, sons: seq<int>)
    requires |keys| == |sons| > 0 && Begins(buf, AddPairs(bytes, keys, sons))
    ensures Begins(buf, AddPairs(bytes, keys[..|keys| - 1], sons[..|keys| - 1]))
    ensures At(buf, |bytes| + (SIZEFLOAT + SIZEINT) * (|keys| - 1), RealBytes(keys[|keys| - 1]))
    ensures At(buf, |bytes| + (SIZEFLOAT + SIZEINT) * (|keys| - 1) + SIZEFLOAT, IntBytes(sons[|keys| - 1]))
  {
    var n := |keys| - 1;
    var front := AddPairs(bytes, keys[..n], sons[..n]);
    BeginsParts(buf, front + RealBytes(keys[n]), IntBytes(sons[n]));
    BeginsParts(buf, front, RealBytes(keys[n]));
  }

  lemma {:induction false} PairAt(buf: seq<Byte>, bytes: seq<Byte>, keys: seq<real>, sons: seq<int>, j: nat)
    requires |keys| == |sons| && Begins(buf, AddPairs(bytes, keys, sons)) && j < |keys|
    ensures At(buf, |bytes| + (SIZEFLOAT + SIZEINT) * j, RealBytes(keys[j]))
    ensures At(buf, |bytes| + (SIZEFLOAT + SIZEINT) * j + SIZEFLOAT, IntBytes(sons[j]))
  {
    LastPair(buf, bytes, keys, sons);
    if j < |keys| - 1 {
      PairAt(buf, bytes, keys[..|keys| - 1], sons[..|keys| - 1], j);
    }
  }

  /** Where the parts of an index node stand in its page. */
  lemma {:induction false} IndexLayout(buf: seq<Byte>, x: Index)
    requires |x.keys| == |x.sons| && Begins(buf, IndexBytes(x))
    ensures HeaderAt(buf, x.level, |x.keys|, x.left, x.right)
    ensures forall j :: 0 <= j < |x.keys| ==>
      At(buf, 13 + 8 * j, RealBytes(x.keys[j])) && At(buf, 17 + 8 * j, IntBytes(x.sons[j]))
  {
    var header := HeaderBytes(x.level, |x.keys|, x.left, x.right);
    BeforePairs(buf, header, x.keys, x.sons);
    HeaderParts(buf, x.level, |x.keys|, x.left, x.right);
    hide HeaderAt, At, Begins;
    forall j | 0 <= j < |x.keys|
      ensures At(buf, 13 + 8 * j, RealBytes(x.keys[j])) && At(buf, 17 + 8 * j, IntBytes(x.sons[j]))
    {
      PairAt(buf, header, x.keys, x.sons, j);
    }
  }

  /** An index node in memory. */
  class BIndexNode {
    var level: int
    var numEntries: nat
    var leftSibling: int
    var rightSibling: int
    var block: int
    var dirty: bool
    const capacity: int
    const key: array<real>
    const son: array<int>

    ghost predicate Valid()
      reads this
    {
      key.Length == son.Length == capacity && numEntries <= capacity
    }

    /** An empty index node for a page of this size. */
    constructor Init(level: int, blockLength: nat, block: int)
      requires IndexCapacity(blockLength) >= 50
      ensures Valid() && fresh(key) && fresh(son) && numEntries == 0 && dirty
      ensures this.level == level && this.block == block && leftSibling == rightSibling == -1
      ensures capacity == IndexCapacity(blockLength)
    {
      this.level, this.block, dirty := level, block, true;
      numEntries, leftSibling, rightSibling := 0, -1, -1;
      capacity := IndexCapacity(blockLength);
      key := new real[IndexCapacity(blockLength)](_ => MINREAL);
      son := new int[IndexCapacity(blockLength)](_ => -1);
    }

    predicate IsFull()
      reads this
    {
      numEntries >= capacity
    }

    /** What the node holds. */
    ghost function Image(): (x: Index)
      reads this, key, son
      requires Valid()
      ensures |x.keys| == |x.sons| == numEntries
    {
      Index(level, leftSibling, rightSibling, key[..numEntries], son[..numEntries])
    }

    method AddNewChild(newKey: real, newSon: int)
      requires Valid() && !IsFull()
      modifies this`numEntries, this`dirty, key, son
      ensures Valid() && numEntries == old(numEntries) + 1 && dirty
      ensures key[..numEntries] == old(key[..numEntries]) + [newKey]
      ensures son[..numEntries] == old(son[..numEntries]) + [newSon]
    {
      key[numEntries] := newKey;
      son[numEntries] := newSon;
      numEntries := numEntries + 1;
      dirty := true;
    }

    /** The last child whose key is at most k, from right to left; -1 if there is none. */
    method FindPositionByKey(k: real) returns (pos: int)
      requires Valid()
      ensures -1 <= pos < numEntries
      ensures pos >= 0 ==> key[pos] <= k
      ensures forall j :: pos < j < numEntries ==> key[j] > k
    {
      pos := numEntries - 1;
      while pos >= 0 && key[pos] > k
        invariant -1 <= pos < numEntries
        invariant forall j :: pos < j < numEntries ==> key[j] > k
      {
        pos := pos - 1;
      }
    }

    method WriteToBuffer(buf: array<Byte>)
      requires Valid() && buf.Length >= IndexSize(numEntries)
      modifies buf
      ensures Begins(buf[..], IndexBytes(Image()))
    {
      ghost var header := HeaderBytes(level, numEntries, leftSibling, rightSibling);
      var i := PutHeader(buf, level, numEntries, leftSibling, rightSibling);
      var j := 0;
      while j < numEntries
        invariant 0 <= j <= numEntries && i == HEADER_SIZE + (SIZEFLOAT + SIZEINT) * j
        invariant buf[..i] == AddPairs(header, key[..j], son[..j])
      {
        assert key[..j + 1][..j] == key[..j] && son[..j + 1][..j] == son[..j];
        i := PutReal(buf, i, key[j]);
        i := PutInt(buf, i, son[j]);
        j := j + 1;
      }
      assert buf[..][..i] == buf[..i];
    }

    /** The fields that were written to a page of the same size. */
    method ReadFromBuffer(buf: array<Byte>, ghost x: Index)
      requires Valid() && |x.keys| == |x.sons| <= capacity && Begins(buf[..], IndexBytes(x))
      modifies this`level, this`numEntries, this`leftSibling, this`rightSibling, key, son
      ensures Valid() && Image() == x
    {
      ghost var header := HeaderBytes(x.level, |x.keys|, x.left, x.right);
      BeforePairs(buf[..], header, x.keys, x.sons);
      HeaderParts(buf[..], x.level, |x.keys|, x.left, x.right);
      level := buf[0].c;
      var i := SIZECHAR;
      numEntries := GetInt(buf, i, |x.keys|);
      i := i + SIZEINT;
      leftSibling := GetInt(buf, i, x.left);
      i := i + SIZEINT;
      rightSibling := GetInt(buf, i, x.right);
      i := i + SIZEINT;
      ReadPairs(buf, i, header, x.keys, x.sons);
    }

    method ReadPairs(buf: array<Byte>, at: nat, ghost bytes: seq<Byte>, ghost keys: seq<real>, ghost sons: seq<int>)
      requires Valid() && numEntries == |keys| == |sons| && at == |bytes|
      requires Begins(buf[..], AddPairs(bytes, keys, sons))
      modifies key, son
      ensures key[..numEntries] == keys && son[..numEntries] == sons
    {
      var i := at;
      var j := 0;
      while j < numEntries
        invariant 0 <= j <= numEntries && i == at + (SIZEFLOAT + SIZEINT) * j
        invariant key[..j] == keys[..j] && son[..j] == sons[..j]
      {
        PairAt(buf[..], bytes, keys, sons, j);
        key[j] := GetReal(buf, i, keys[j]);
        i := i + SIZEFLOAT;
        son[j] := GetInt(buf, i, sons[j]);
        i := i + SIZEINT;
        j := j + 1;
      }
    }
  }

  /** An index node written to its page and read back has the same fields. */
  method ReloadIndex(node: BIndexNode, blockLength: nat) returns (copy: BIndexNode)
    requires node.Valid() && node.capacity == IndexCapacity(blockLength) >= 50
    ensures fresh(copy) && copy.Valid() && copy.Image() == node.Image()
  {
    var buf := new Byte[blockLength](_ => Blank);
    node.WriteToBuffer(buf);
    copy := new BIndexNode.Init(-1, blockLength, node.block);
    copy.ReadFromBuffer(buf, node.Image());
  }
}
