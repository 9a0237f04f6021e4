/** Geometry of a `size`^`dimension` grid stored flat in row-major order:
    the grid shape, linear index <-> coordinates (numpy's `unravel_index` and
    `ravel_multi_index` written out as mixed-radix conversion), coordinate
    validity and the list of empty cells. */
module Board {

  function Pow(b: nat, e: nat): nat
  {
    if e == 0 then 1 else b * Pow(b, e - 1)
  }

  /** Number of cells of an array with the given shape (numpy's `size`). */
  function CellCount(shape: seq<nat>): nat
  {
    if |shape| == 0 then 1 else CellCount(shape[..|shape| - 1]) * shape[|shape| - 1]
  }

  /** The grid shape `(size,)*dimension`. */
  function Shape(size: nat, dimension: nat): (shape: seq<nat>)
    ensures |shape| == dimension
    ensures forall i :: 0 <= i < dimension ==> shape[i] == size
    ensures CellCount(shape) == Pow(size, dimension)
  {
    if dimension == 0 then [] else Shape(size, dimension - 1) + [size]
  }

  /** `c` is a multi-index of an array of shape `shape`. */
  predicate InShape(c: seq<int>, shape: seq<nat>)
  {
    |c| == |shape| && forall i :: 0 <= i < |c| ==> 0 <= c[i] < shape[i]
  }

  lemma MulMono(a: nat, b: nat, m: nat)
    requires a <= b
    ensures a * m <= b * m
  {
  }

  lemma DivBelow(i: nat, p: nat, m: nat)
    requires i < p * m
    ensures m > 0 && i / m < p
  {
    assert m != 0;
    if i / m >= p {
      MulMono(p, i / m, m);
    }
  }

  lemma DivModOf(q: nat, r: nat, m: nat)
    requires r < m
    ensures (q * m + r) / m == q && (q * m + r) % m == r
  {
    var x := q * m + r;
    var d, e := x / m, x % m;
    assert x == d * m + e;
    if d > q {
      MulMono(q + 1, d, m);
    } else if d < q {
      MulMono(d + 1, q, m);
    }
  }

  /** `np.unravel_index(index, shape)`: the last coordinate varies fastest. */
  function Unravel(index: nat, shape: seq<nat>): (c: seq<int>)
    requires index < CellCount(shape)
    ensures InShape(c, shape)
    decreases |shape|
  {
    if |shape| == 0 then []
    else
      var n := |shape| - 1;
      DivBelow(index, CellCount(shape[..n]), shape[n]);
      Unravel(index / shape[n], shape[..n]) + [index % shape[n]]
  }

  /** `np.ravel_multi_index(c, shape)`. */
  function Ravel(c: seq<int>, shape: seq<nat>): (index: nat)
    requires InShape(c, shape)
    ensures index < CellCount(shape)
    decreases |shape|
  {
    if |shape| == 0 then 0
    else
      var n := |shape| - 1;
      assert InShape(c[..n], shape[..n]);
      var r := Ravel(c[..n], shape[..n]);
      MulMono(r + 1, CellCount(shape[..n]), shape[n]);
      assert (r + 1) * shape[n] == r * shape[n] + shape[n];
      r * shape[n] + c[n]
  }

  lemma {:induction false} RavelUnravel(index: nat, shape: seq<nat>)
    requires index < CellCount(shape)
    ensures Ravel(Unravel(index, shape), shape) == index
    decreases |shape|
  {
    if |shape| > 0 {
      var n := |shape| - 1;
      DivBelow(index, CellCount(shape[..n]), shape[n]);
      var u := Unravel(index / shape[n], shape[..n]);
      var c := Unravel(index, shape);
      assert c[..n] == u && c[n] == index % shape[n];
      RavelUnravel(index / shape[n], shape[..n]);
      assert Ravel(c, shape) == Ravel(u, shape[..n]) * shape[n] + c[n];
    }
  }

  lemma {:induction false} UnravelRavel(c: seq<int>, shape: seq<nat>)
    requires InShape(c, shape)
    ensures Unravel(Ravel(c, shape), shape) == c
    decreases |shape|
  {
    if |shape| > 0 {
      var n := |shape| - 1;
      assert InShape(c[..n], shape[..n]);
      var r := Ravel(c[..n], shape[..n]);
      var index := Ravel(c, shape);
      assert index == r * shape[n] + c[n];
      DivModOf(r, c[n], shape[n]);
      assert Unravel(index, shape) == Unravel(r, shape[..n]) + [c[n]];
      UnravelRavel(c[..n], shape[..n]);
      assert c == c[..n] + [c[n]];
    }
  }

  /** `_are_coors_valid`: every component lies in [0, size). */
  predicate ValidCoors(size: int, coors: seq<int>)
  {
    forall i :: 0 <= i < |coors| ==> 0 <= coors[i] < size
  }

  lemma ValidInShape(size: nat, coors: seq<int>)
    ensures ValidCoors(size, coors) <==> InShape(coors, Shape(size, |coors|))
  {
  }

  /** `_index_to_coors`. */
  function IndexToCoors(size: nat, dimension: nat, index: nat): (coors: seq<int>)
    requires index < Pow(size, dimension)
    ensures |coors| == dimension && ValidCoors(size, coors)
  {
    Unravel(index, Shape(size, dimension))
  }

  /** `_coors_to_index`. */
  function CoorsToIndex(size: nat, dimension: nat, coors: seq<int>): (index: nat)
    requires |coors| == dimension && ValidCoors(size, coors)
    ensures index < Pow(size, dimension)
  {
    ValidInShape(size, coors);
    Ravel(coors, Shape(size, dimension))
  }

  /** Converting an action to coordinates and back gives the action. */
  lemma IndexCoorsRoundTrip(size: nat, dimension: nat, index: nat)
    requires index < Pow(size, dimension)
    ensures CoorsToIndex(size, dimension, IndexToCoors(size, dimension, index)) == index
  {
    RavelUnravel(index, Shape(size, dimension));
  }

  /** Converting valid coordinates to an index and back gives the coordinates. */
  lemma CoorsIndexRoundTrip(size: nat, dimension: nat, coors: seq<int>)
    requires |coors| == dimension && ValidCoors(size, coors)
    ensures IndexToCoors(size, dimension, CoorsToIndex(size, dimension, coors)) == coors
  {
    ValidInShape(size, coors);
    UnravelRavel(coors, Shape(size, dimension));
  }

  /** Distinct valid coordinates name distinct cells. */
  lemma CoorsToIndexInjective(size: nat, dimension: nat, c: seq<int>, d: seq<int>)
    requires |c| == dimension && ValidCoors(size, c)
    requires |d| == dimension && ValidCoors(size, d)
    ensures CoorsToIndex(size, dimension, c) == CoorsToIndex(size, dimension, d) <==> c == d
  {
    CoorsIndexRoundTrip(size, dimension, c);
    CoorsIndexRoundTrip(size, dimension, d);
  }

  /** `grid[coors]` on the flat row-major grid. */
  function Cell(grid: seq<int>, size: nat, coors: seq<int>): int
    requires |grid| == Pow(size, |coors|) && ValidCoors(size, coors)
  {
    grid[CoorsToIndex(size, |coors|, coors)]
  }

  /** Reading the cell at the coordinates of an index reads that index. */
  lemma CellAtIndex(grid: seq<int>, size: nat, dimension: nat, index: nat)
    requires |grid| == Pow(size, dimension) && index < |grid|
    ensures Cell(grid, size, IndexToCoors(size, dimension, index)) == grid[index]
  {
    IndexCoorsRoundTrip(size, dimension, index);
  }

  lemma NoEmptyCells(cells: seq<int>)
    ensures EmptyCells(cells) == [] <==> forall i :: 0 <= i < |cells| ==> cells[i] != 0
  {
    if EmptyCells(cells) != [] {
      assert cells[EmptyCells(cells)[0]] == 0;
    }
  }

  /** The flat indices of the empty (zero) cells in increasing order; this is
      both `np.argwhere(grid == 0)` taken back to flat indices and the list
      `[i for i in range(len(cells)) if cells[i] == 0]`. */
  function EmptyCells(cells: seq<int>): (empty: seq<nat>)
    ensures forall k :: 0 <= k < |empty| ==> empty[k] < |cells| && cells[empty[k]] == 0
    ensures forall i :: 0 <= i < |cells| && cells[i] == 0 ==> i in empty
    ensures forall k, l :: 0 <= k < l < |empty| ==> empty[k] < empty[l]
  {
    if |cells| == 0 then []
    else
      var n := |cells| - 1;
      EmptyCells(cells[..n]) + (if cells[n] == 0 then [n] else [])
  }
}
