/**
 The multidimensional table of the inverted multi-index: a flat vector addressed
 by mixed-radix coordinates.
 */
module Multitables {
  import opened Wrappers

  datatype TableError =
    | EmptyIndices   // std::logic_error("Empty indices array!")
    | OutOfRange     // std::out_of_range thrown by vector::at

  ghost predicate Positive(dims: seq<int>) {
    forall i :: 0 <= i < |dims| ==> dims[i] > 0
  }

  /** The cells of the grid: one coordinate per dimension, each below its width. */
  ghost predicate InGrid(dims: seq<int>, cell: seq<int>) {
    && |cell| == |dims|
    && forall i :: 0 <= i < |dims| ==> 0 <= cell[i] < dims[i]
  }

  /** Number of cells of the grid. */
  function Product(dims: seq<int>): int {
    if dims == [] then 1 else dims[0] * Product(dims[1..])
  }

  /** Rank of a coordinate vector in row-major order. */
  function Offset(dims: seq<int>, cell: seq<int>): int
    requires |cell| >= |dims|
  {
    if dims == [] then 0
    else cell[0] * Product(dims[1..]) + Offset(dims[1..], cell[1..])
  }

  /** Inverse of Offset: the coordinates of the cell with a given rank. */
  function CellAt(dims: seq<int>, rank: int): (cell: seq<int>)
    requires Positive(dims)
    ensures |cell| == |dims|
  {
    if dims == [] then []
    else
      ProductPositive(dims[1..]);
      [rank / Product(dims[1..])] + CellAt(dims[1..], rank % Product(dims[1..]))
  }

  lemma {:induction false} ProductPositive(dims: seq<int>)
    requires Positive(dims)
    ensures Product(dims) > 0
  {
    if dims != [] {
      ProductPositive(dims[1..]);
    }
  }

  lemma {:induction false} OffsetBounds(dims: seq<int>, cell: seq<int>)
    requires Positive(dims) && InGrid(dims, cell)
    ensures 0 <= Offset(dims, cell) < Product(dims)
  {
    if dims != [] {
      OffsetBounds(dims[1..], cell[1..]);
      var p := Product(dims[1..]);
      MulMono(0, cell[0], p);
      MulMono(cell[0] + 1, dims[0], p);
      MulStep(cell[0], p);
    }
  }

  lemma MulMono(a: int, b: int, p: int)
    requires a <= b && 0 <= p
    ensures a * p <= b * p
  {
  }

  lemma MulStep(a: int, p: int)
    ensures (a + 1) * p == a * p + p && (a - 1) * p == a * p - p
  {
  }

  lemma {:induction false} QuotientUnique(a: int, q: int, p: int, r: int, m: int)
    requires 0 <= r < p && 0 <= m < p && a * p + r == q * p + m
    ensures a == q && r == m
  {
    if a < q {
      MulMono(a + 1, q, p);
      MulStep(a, p);
    } else if q < a {
      MulMono(q + 1, a, p);
      MulStep(q, p);
    }
  }

  lemma {:induction false} DivModUnique(a: int, p: int, r: int)
    requires 0 <= r < p
    ensures (a * p + r) / p == a && (a * p + r) % p == r
  {
    var n := a * p + r;
    assert n == n / p * p + n % p;
    QuotientUnique(a, n / p, p, r, n % p);
  }

  /** Every cell is recovered from its rank ... */
  lemma {:induction false} CellAtOffset(dims: seq<int>, cell: seq<int>)
    requires Positive(dims) && InGrid(dims, cell)
    ensures CellAt(dims, Offset(dims, cell)) == cell
  {
    if dims != [] {
      OffsetBounds(dims[1..], cell[1..]);
      DivModUnique(cell[0], Product(dims[1..]), Offset(dims[1..], cell[1..]));
      CellAtOffset(dims[1..], cell[1..]);
      assert cell == [cell[0]] + cell[1..];
    }
  }

  lemma {:induction false} QuotientBelow(n: int, p: int, d: int)
    requires p > 0 && 0 <= n < d * p
    ensures 0 <= n / p < d && 0 <= n % p < p && n == n / p * p + n % p
  {
    assert n == n / p * p + n % p;
    if n / p >= d {
      MulMono(d, n / p, p);
    } else if n / p < 0 {
      MulMono(n / p + 1, 0, p);
      MulStep(n / p, p);
    }
  }

  /** ... and every rank below the table size is the rank of a cell. */
  lemma {:induction false} OffsetCellAt(dims: seq<int>, rank: int)
    requires Positive(dims) && 0 <= rank < Product(dims)
    ensures InGrid(dims, CellAt(dims, rank)) && Offset(dims, CellAt(dims, rank)) == rank
  {
    if dims != [] {
      ProductPositive(dims[1..]);
      var p := Product(dims[1..]);
      QuotientBelow(rank, p, dims[0]);
      OffsetCellAt(dims[1..], rank % p);
      Prepended(dims, rank / p, CellAt(dims[1..], rank % p));
    }
  }

  lemma Prepended(dims: seq<int>, x: int, rest: seq<int>)
    requires dims != [] && 0 <= x < dims[0] && InGrid(dims[1..], rest)
    ensures InGrid(dims, [x] + rest)
    ensures Offset(dims, [x] + rest) == x * Product(dims[1..]) + Offset(dims[1..], rest)
  {
    assert ([x] + rest)[1..] == rest;
  }

  lemma {:induction false} OffsetInjective(dims: seq<int>, a: seq<int>, b: seq<int>)
    requires Positive(dims) && InGrid(dims, a) && InGrid(dims, b)
    requires Offset(dims, a) == Offset(dims, b)
    ensures a == b
  {
    CellAtOffset(dims, a);
    CellAtOffset(dims, b);
  }

  /** The rank counts the cells in order, the first coordinate the most significant one. */
  lemma {:induction false} OffsetOrder(dims: seq<int>, a: seq<int>, b: seq<int>, i: nat)
    requires Positive(dims) && InGrid(dims, a) && InGrid(dims, b)
    requires i < |dims| && a[i] < b[i] && forall j :: 0 <= j < i ==> a[j] == b[j]
    ensures Offset(dims, a) < Offset(dims, b)
  {
    if i > 0 {
      OffsetOrder(dims[1..], a[1..], b[1..], i - 1);
    } else {
      var p := Product(dims[1..]);
      OffsetBounds(dims[1..], a[1..]);
      OffsetBounds(dims[1..], b[1..]);
      MulMono(a[0] + 1, b[0], p);
      MulStep(a[0], p);
    }
  }

  lemma {:induction false} OffsetRaise(dims: seq<int>, cell: seq<int>, i: nat)
    requires i < |dims| == |cell|
    ensures Offset(dims, cell[i := cell[i] + 1]) == Offset(dims, cell) + Product(dims[i + 1..])
    ensures Offset(dims, cell[i := cell[i] - 1]) == Offset(dims, cell) - Product(dims[i + 1..])
  {
    MulStep(cell[0], Product(dims[1..]));
    if i == 0 {
      assert cell[0 := cell[0] + 1][1..] == cell[1..] == cell[0 := cell[0] - 1][1..];
    } else {
      OffsetRaise(dims[1..], cell[1..], i - 1);
      assert dims[1..][i..] == dims[i + 1..];
      assert cell[i := cell[i] + 1][1..] == cell[1..][i - 1 := cell[i] + 1];
      assert cell[i := cell[i] - 1][1..] == cell[1..][i - 1 := cell[i] - 1];
    }
  }

  lemma {:induction false} ProductAntitone(dims: seq<int>, l: nat, i: nat)
    requires Positive(dims) && l <= i <= |dims|
    ensures 0 < Product(dims[i..]) <= Product(dims[l..])
    decreases i - l
  {
    ProductPositive(dims[i..]);
    if l < i {
      ProductAntitone(dims, l + 1, i);
      ProductSplit(dims, l);
      MulMono(1, dims[l], Product(dims[l + 1..]));
    }
  }

  /**
   A coordinate that has run one past its end still addresses the table, as long
   as an earlier coordinate was stepped back from inside the grid.
   */
  lemma {:induction false} OvershootBounds(dims: seq<int>, cell: seq<int>, l: nat, i: nat)
    requires Positive(dims) && l < i < |dims| && InGrid(dims, cell) && cell[l] > 0
    ensures 0 <= Offset(dims, cell[i := cell[i] + 1][l := cell[l] - 1]) < Product(dims)
  {
    var back := cell[l := cell[l] - 1];
    OffsetBounds(dims, cell);
    OffsetBounds(dims, back);
    OffsetRaise(dims, cell, l);
    OffsetRaise(dims, back, i);
    ProductAntitone(dims, l + 1, i + 1);
    assert cell[i := cell[i] + 1][l := cell[l] - 1] == back[i := back[i] + 1];
  }

  lemma {:induction false} ProductSplit(dims: seq<int>, k: nat)
    requires k < |dims|
    ensures Product(dims[k..]) == dims[k] * Product(dims[k + 1..])
  {
    assert dims[k..][1..] == dims[k + 1..];
  }

  /** Dividing by one more width gives the capacity of the rest, which weighs the next index. */
  lemma {:induction false} PeelWidth(dimensions: seq<int>, indices: seq<int>, d: nat)
    requires Positive(dimensions) && d < |dimensions| <= |indices|
    ensures Product(dimensions[d..]) / dimensions[d] == Product(dimensions[d + 1..])
    ensures Offset(dimensions[d..], indices[d..]) ==
      Product(dimensions[d + 1..]) * indices[d] + Offset(dimensions[d + 1..], indices[d + 1..])
  {
    ProductSplit(dimensions, d);
    DivModUnique(Product(dimensions[d + 1..]), dimensions[d], 0);
    assert dimensions[d..][1..] == dimensions[d + 1..] && indices[d..][1..] == indices[d + 1..];
  }

  class Multitable<T> {
    var table: seq<T>
    var dimensions: seq<int>

    /** The shape every user of the table establishes before addressing it. */
    ghost predicate Shaped()
      reads this
    {
      Positive(dimensions) && |table| == Product(dimensions)
    }

    /** The table as an array of cells. */
    ghost function At(cell: seq<int>): T
      requires Shaped() && InGrid(dimensions, cell)
      reads this
    {
      OffsetBounds(dimensions, cell);
      table[Offset(dimensions, cell)]
    }

    constructor (dims: seq<int>, default: T)
      requires Positive(dims)
      ensures Shaped() && dimensions == dims
      ensures forall i :: 0 <= i < |table| ==> table[i] == default
    {
      dimensions := dims;
      table := [];
      new;
      Resize(dims, default);
    }

    /** vector::resize keeps the values already stored and pads with value. */
    method Resize(newDimensions: seq<int>, value: T)
      requires Positive(newDimensions)
      modifies this
      ensures Shaped() && dimensions == newDimensions
      ensures forall i :: 0 <= i < |table| ==> table[i] == if i < |old(table)| then old(table)[i] else value
    {
      var tableSize := 1;
      dimensions := newDimensions;
      ghost var all := Product(newDimensions);
      var d := 0;
      assert newDimensions[0..] == newDimensions;
      while d < |newDimensions|
        invariant 0 <= d <= |newDimensions|
        invariant dimensions == newDimensions && table == old(table)
        invariant tableSize > 0 && tableSize * Product(newDimensions[d..]) == all
      {
        ProductSplit(newDimensions, d);
        assert tableSize * (newDimensions[d] * Product(newDimensions[d + 1..])) ==
            tableSize * newDimensions[d] * Product(newDimensions[d + 1..]);
        tableSize := tableSize * newDimensions[d];
        d := d + 1;
      }
      if tableSize <= |table| {
        table := table[..tableSize];
      } else {
        table := table + seq(tableSize - |table|, _ => value);
      }
    }

    /**
     The global index is the row-major rank of the cell; the division by each
     width peels off the capacity of the remaining subtable.
     */
    method GetCellGlobalIndex(indices: seq<int>) returns (r: Result<int, TableError>)
      requires Shaped() && (indices == [] || |indices| >= |dimensions|)
      ensures r == if indices == [] then Err(EmptyIndices) else Ok(Offset(dimensions, indices))
    {
      if indices == [] {
        return Err(EmptyIndices);
      }
      var globalIndex := 0;
      var subtableCapacity := |table|;
      var d := 0;
      assert dimensions[0..] == dimensions && indices[0..] == indices;
      while d < |dimensions|
        invariant 0 <= d <= |dimensions|
        invariant subtableCapacity == Product(dimensions[d..])
        invariant globalIndex + Offset(dimensions[d..], indices[d..]) == Offset(dimensions, indices)
      {
        PeelWidth(dimensions, indices, d);
        subtableCapacity := subtableCapacity / dimensions[d];
        globalIndex := globalIndex + subtableCapacity * indices[d];
        d := d + 1;
      }
      r := Ok(globalIndex);
    }

    method GetValue(indices: seq<int>) returns (r: Result<T, TableError>)
      requires Shaped() && (indices == [] || |indices| >= |dimensions|)
      ensures indices == [] ==> r == Err(EmptyIndices)
      ensures indices != [] ==>
        var i := Offset(dimensions, indices);
        r == if 0 <= i < |table| then Ok(table[i]) else Err(OutOfRange)
    {
      var i := GetCellGlobalIndex(indices);
      match i
      case Err(e) => r := Err(e);
      case Ok(g) => r := if 0 <= g < |table| then Ok(table[g]) else Err(OutOfRange);
    }

    /** Writing one cell changes that cell and no other. */
    method SetValue(value: T, indices: seq<int>) returns (r: Result<(), TableError>)
      requires Shaped() && (indices == [] || |indices| >= |dimensions|)
      modifies `table
      ensures Shaped()
      ensures indices == [] ==> r == Err(EmptyIndices) && table == old(table)
      ensures indices != [] ==>
        var i := Offset(dimensions, indices);
        if 0 <= i < |old(table)| then r == Ok(()) && table == old(table)[i := value]
        else r == Err(OutOfRange) && table == old(table)
      ensures indices != [] && InGrid(dimensions, indices) ==>
        r == Ok(()) && At(indices) == value
      ensures InGrid(dimensions, indices) ==>
        forall c :: InGrid(dimensions, c) && c != indices ==> At(c) == old(At(c))
    {
      if InGrid(dimensions, indices) { OffsetBounds(dimensions, indices); }
      var i := GetCellGlobalIndex(indices);
      match i
      case Err(e) => r := Err(e);
      case Ok(g) =>
        if 0 <= g < |table| {
          table := table[g := value];
          r := Ok(());
          forall c | InGrid(dimensions, c) && InGrid(dimensions, indices) && c != indices
            ensures At(c) == old(At(c))
          {
            OffsetBounds(dimensions, c);
            if Offset(dimensions, c) == g { OffsetInjective(dimensions, c, indices); }
          }
        } else {
          r := Err(OutOfRange);
        }
    }
  }
}
