/** The dimension-agnostic win oracle, as specification: the canonical axis
    directions, the line of cells through a cell along a direction, runs of
    equal symbols, and the win condition that combines them. The imperative
    versions of these operations live in the environment class and are
    proved equal to the functions here. */
module WinOracle {
  import opened Board

  // ---------------------------------------------------------------------
  // Axis enumeration
  // ---------------------------------------------------------------------

  /** The k-th tuple of `itertools.product([-1, 0, 1], repeat=d)`: the base-3
      digits of k, most significant first, each shifted down by one; the last
      component varies fastest. */
  function ProductAt(d: nat, k: nat): (v: seq<int>)
    requires k < Pow(3, d)
    ensures |v| == d && IsTernary(v)
  {
    if d == 0 then []
    else
      DivBelow(k, Pow(3, d - 1), 3);
      ProductAt(d - 1, k / 3) + [k % 3 - 1]
  }

  /** The whole list `list(itertools.product([-1, 0, 1], repeat=d))`. */
  function Product(d: nat): (vs: seq<seq<int>>)
    ensures |vs| == Pow(3, d)
    ensures forall k :: 0 <= k < |vs| ==> vs[k] == ProductAt(d, k)
  {
    seq(Pow(3, d), k requires 0 <= k < Pow(3, d) => ProductAt(d, k))
  }

  predicate IsTernary(v: seq<int>)
  {
    forall i :: 0 <= i < |v| ==> -1 <= v[i] <= 1
  }

  /** The position of a {-1,0,1} vector in the product list. */
  function ProductIndex(v: seq<int>): (k: nat)
    requires IsTernary(v)
    ensures k < Pow(3, |v|)
  {
    if |v| == 0 then 0
    else
      var n := |v| - 1;
      assert IsTernary(v[..n]);
      var q := ProductIndex(v[..n]);
      MulMono(q + 1, Pow(3, n), 3);
      3 * q + (v[n] + 1)
  }

  /** The recursion `itertools.product` follows: tuple 3q+r is tuple q of the
      shorter product followed by the r-th of -1, 0, 1. */
  lemma ProductStep(d: nat, q: nat, r: nat)
    requires 1 <= d && q < Pow(3, d - 1) && r < 3
    ensures 3 * q + r < Pow(3, d)
    ensures ProductAt(d, 3 * q + r) == ProductAt(d - 1, q) + [r - 1]
  {
    MulMono(q + 1, Pow(3, d - 1), 3);
    DivModOf(q, r, 3);
  }

  /** `ProductIndex` finds every {-1,0,1} vector in the product list. */
  lemma {:induction false} ProductIndexOf(v: seq<int>)
    requires IsTernary(v)
    ensures ProductAt(|v|, ProductIndex(v)) == v
  {
    if |v| > 0 {
      var n := |v| - 1;
      assert IsTernary(v[..n]);
      ProductIndexOf(v[..n]);
      ProductStep(|v|, ProductIndex(v[..n]), v[n] + 1);
      assert v == v[..n] + [v[n]];
    }
  }

  /** Every tuple of the product list sits at its own `ProductIndex`. */
  lemma {:induction false} IndexOfProduct(d: nat, k: nat)
    requires k < Pow(3, d)
    ensures ProductIndex(ProductAt(d, k)) == k
  {
    if d > 0 {
      DivBelow(k, Pow(3, d - 1), 3);
      var v := ProductAt(d, k);
      assert v[..d - 1] == ProductAt(d - 1, k / 3);
      IndexOfProduct(d - 1, k / 3);
    }
  }

  /** The product list has no repeated tuple. */
  lemma ProductInjective(d: nat, k: nat, l: nat)
    requires k < Pow(3, d) && l < Pow(3, d)
    ensures ProductAt(d, k) == ProductAt(d, l) <==> k == l
  {
    IndexOfProduct(d, k);
    IndexOfProduct(d, l);
  }

  /** The product list holds every length-d {-1,0,1} vector, and each of
      them once. */
  lemma ProductContents(d: nat)
    ensures forall v :: |v| == d && IsTernary(v) ==> v in Product(d)
    ensures forall k, l :: 0 <= k < l < |Product(d)| ==> Product(d)[k] != Product(d)[l]
  {
    forall v | |v| == d && IsTernary(v) ensures v in Product(d) {
      ProductIndexOf(v);
      assert Product(d)[ProductIndex(v)] == v;
    }
    forall k, l | 0 <= k < l < |Product(d)| ensures Product(d)[k] != Product(d)[l] {
      ProductInjective(d, k, l);
    }
  }

  /** The number of axes, `(3^d - 1) / 2`. */
  function AxisCount(d: nat): (n: nat)
    ensures 2 * n + 1 == Pow(3, d)
  {
    if d == 0 then 0 else 3 * AxisCount(d - 1) + 1
  }

  function ZeroVector(d: nat): seq<int>
  {
    seq(d, _ => 0)
  }

  function Neg(v: seq<int>): (w: seq<int>)
    ensures |w| == |v|
  {
    seq(|v|, i requires 0 <= i < |v| => -v[i])
  }

  lemma NegAppend(v: seq<int>, x: int)
    ensures Neg(v + [x]) == Neg(v) + [-x]
  {
    var a, b := Neg(v + [x]), Neg(v) + [-x];
    forall i | 0 <= i < |a| ensures a[i] == b[i] {
      if i < |v| {
        assert a[i] == -(v + [x])[i] == -v[i];
      }
    }
  }

  predicate IsNonzero(v: seq<int>)
  {
    exists i :: 0 <= i < |v| && v[i] != 0
  }

  /** The zero vector stands exactly in the middle of the product list. */
  lemma {:induction false} ProductMiddleIsZero(d: nat)
    ensures AxisCount(d) < Pow(3, d) && ProductAt(d, AxisCount(d)) == ZeroVector(d)
  {
    if d > 0 {
      ProductMiddleIsZero(d - 1);
      ProductStep(d, AxisCount(d - 1), 1);
      assert ZeroVector(d) == ZeroVector(d - 1) + [0];
    }
  }

  /** Tuple k and tuple 3^d - 1 - k of the product list are each other's
      negation. */
  lemma {:induction false} ProductNeg(d: nat, k: nat)
    requires k < Pow(3, d)
    ensures Neg(ProductAt(d, k)) == ProductAt(d, Pow(3, d) - 1 - k)
  {
    if d > 0 {
      var p := Pow(3, d - 1);
      assert Pow(3, d) == 3 * p;
      var q, r := k / 3, k % 3;
      DivBelow(k, p, 3);
      var q' := p - 1 - q;
      assert 3 * q' + (2 - r) == Pow(3, d) - 1 - k;
      assert k == 3 * q + r;
      ProductNeg(d - 1, q);
      ProductStep(d, q, r);
      ProductStep(d, q', 2 - r);
      var v, w := ProductAt(d - 1, q), ProductAt(d - 1, q');
      assert Neg(v) == w;
      assert ProductAt(d, k) == v + [r - 1];
      NegAppend(v, r - 1);
    }
  }

  lemma NegOfProduct(d: nat, k: nat)
    requires k < Pow(3, d)
    ensures IsTernary(Neg(ProductAt(d, k)))
    ensures ProductIndex(Neg(ProductAt(d, k))) == Pow(3, d) - 1 - k
  {
    var k' := Pow(3, d) - 1 - k;
    ProductNeg(d, k);
    var w := ProductAt(d, k');
    IndexOfProduct(d, k');
    assert Neg(ProductAt(d, k)) == w;
  }

  /** Negating a vector mirrors its position in the product list. */
  lemma ProductNegIndex(v: seq<int>)
    requires IsTernary(v)
    ensures IsTernary(Neg(v)) && ProductIndex(Neg(v)) == Pow(3, |v|) - 1 - ProductIndex(v)
  {
    ProductIndexOf(v);
    NegOfProduct(|v|, ProductIndex(v));
  }

  /** Python's `list.remove(x)`: drop the first occurrence of `x`. */
  function RemoveFirst(s: seq<seq<int>>, x: seq<int>): (r: seq<seq<int>>)
    requires x in s
    ensures |r| == |s| - 1
  {
    if s[0] == x then s[1..] else [s[0]] + RemoveFirst(s[1..], x)
  }

  lemma {:induction false} RemoveFirstAt(s: seq<seq<int>>, x: seq<int>, i: nat)
    requires i < |s| && s[i] == x && x !in s[..i]
    ensures RemoveFirst(s, x) == s[..i] + s[i + 1..]
  {
    if i > 0 {
      assert s[1..][i - 1] == x;
      assert s[1..][..i - 1] == s[..i][1..];
      RemoveFirstAt(s[1..], x, i - 1);
      assert s[..i] == [s[0]] + s[1..][..i - 1];
    }
  }

  /** The product list with the zero vector removed
      (`vectors.remove((0,)*d)`). */
  lemma ProductWithoutZero(d: nat)
    ensures ZeroVector(d) in Product(d)
    ensures RemoveFirst(Product(d), ZeroVector(d))
            == Product(d)[..AxisCount(d)] + Product(d)[AxisCount(d) + 1..]
  {
    var m := AxisCount(d);
    ProductMiddleIsZero(d);
    forall k | 0 <= k < m ensures Product(d)[k] != ZeroVector(d) {
      ProductInjective(d, k, m);
    }
    RemoveFirstAt(Product(d), ZeroVector(d), m);
  }

  /** The vectors `_get_intersecting_axes` scans: the product list with the
      zero vector removed. */
  function ScanList(d: nat): (vs: seq<seq<int>>)
    ensures |vs| == 2 * AxisCount(d)
  {
    ProductWithoutZero(d);
    RemoveFirst(Product(d), ZeroVector(d))
  }

  /** The axes the scan has kept after looking at the first j vectors: the
      product tuples before the j-th, but never past the middle. */
  function Kept(d: nat, j: nat): (kept: seq<seq<int>>)
    requires j <= 2 * AxisCount(d)
    ensures |kept| == if j <= AxisCount(d) then j else AxisCount(d)
  {
    var p := if j <= AxisCount(d) then j else AxisCount(d);
    seq(p, k requires 0 <= k < p => ProductAt(d, k))
  }

  /** The j-th scanned vector is product tuple j before the middle and
      tuple j + 1 after it. */
  lemma ScanAt(d: nat, j: nat)
    requires j < 2 * AxisCount(d)
    ensures ScanList(d)[j] == ProductAt(d, if j < AxisCount(d) then j else j + 1)
  {
    var m := AxisCount(d);
    ProductWithoutZero(d);
    if j < m {
      assert ScanList(d)[j] == Product(d)[..m][j];
    } else {
      assert ScanList(d)[j] == Product(d)[m + 1..][j - m];
    }
  }

  /** A product tuple is among the kept vectors exactly when its position
      is inside the kept prefix. */
  lemma InKept(d: nat, j: nat, x: nat)
    requires j <= 2 * AxisCount(d) && x < Pow(3, d)
    ensures ProductAt(d, x) in Kept(d, j) <==> x < |Kept(d, j)|
  {
    var kept := Kept(d, j);
    if x < |kept| {
      assert kept[x] == ProductAt(d, x);
    } else {
      forall l | 0 <= l < |kept| ensures kept[l] != ProductAt(d, x) {
        ProductInjective(d, l, x);
      }
    }
  }

  /** The test of one step of the scan in `_get_intersecting_axes`: the
      j-th vector v has its negation among the kept vectors exactly when it
      lies past the middle of the product list. */
  lemma ScanStep(d: nat, j: nat, v: seq<int>)
    requires j < 2 * AxisCount(d)
    requires v == ProductAt(d, if j < AxisCount(d) then j else j + 1)
    ensures Neg(v) in Kept(d, j) <==> AxisCount(d) <= j
  {
    var k := if j < AxisCount(d) then j else j + 1;
    ProductNeg(d, k);
    InKept(d, j, Pow(3, d) - 1 - k);
  }

  /** The effect of one step of the scan: before the middle the kept prefix
      grows by the scanned vector v, after it the kept prefix stays. */
  lemma KeptStep(d: nat, j: nat, v: seq<int>)
    requires j < 2 * AxisCount(d)
    requires v == ProductAt(d, if j < AxisCount(d) then j else j + 1)
    ensures j < AxisCount(d) ==> Kept(d, j) + [v] == Kept(d, j + 1)
    ensures AxisCount(d) <= j ==> Kept(d, j) == Kept(d, j + 1)
  {
    if j < AxisCount(d) {
      var a, b := Kept(d, j) + [v], Kept(d, j + 1);
      forall l | 0 <= l < |b| ensures a[l] == b[l] {
      }
    }
  }

  /** The axes kept by `_get_intersecting_axes`: the first half of the
      product list, everything before the zero vector. */
  function Axes(d: nat): (axes: seq<seq<int>>)
    ensures |axes| == AxisCount(d)
    ensures axes == Kept(d, 2 * AxisCount(d))
  {
    seq(AxisCount(d), k requires 0 <= k < AxisCount(d) => ProductAt(d, k))
  }

  /** There are (3^d - 1)/2 axes, each a nonzero {-1,0,1} vector of length d. */
  lemma AxesShape(d: nat)
    ensures |Axes(d)| == (Pow(3, d) - 1) / 2
    ensures forall k :: 0 <= k < |Axes(d)| ==>
      |Axes(d)[k]| == d && IsTernary(Axes(d)[k]) && IsNonzero(Axes(d)[k])
  {
    var m := AxisCount(d);
    ProductMiddleIsZero(d);
    forall k | 0 <= k < m ensures IsNonzero(Axes(d)[k]) {
      ProductInjective(d, k, m);
    }
  }

  /** No axis occurs twice, and no axis occurs together with its negation. */
  lemma AxesDistinct(d: nat)
    ensures forall k, l :: 0 <= k < l < |Axes(d)| ==> Axes(d)[k] != Axes(d)[l]
    ensures forall k, l :: 0 <= k < |Axes(d)| && 0 <= l < |Axes(d)| ==> Axes(d)[k] != Neg(Axes(d)[l])
  {
    var m := AxisCount(d);
    forall k, l | 0 <= k < l < m ensures Axes(d)[k] != Axes(d)[l] {
      ProductInjective(d, k, l);
    }
    forall k, l | 0 <= k < m && 0 <= l < m ensures Axes(d)[k] != Neg(Axes(d)[l]) {
      ProductNeg(d, l);
      ProductInjective(d, k, Pow(3, d) - 1 - l);
    }
  }

  /** A {-1,0,1} vector is an axis exactly when it comes before the middle
      of the product list. */
  lemma InAxes(v: seq<int>)
    requires IsTernary(v)
    ensures v in Axes(|v|) <==> ProductIndex(v) < AxisCount(|v|)
  {
    var d, k := |v|, ProductIndex(v);
    ProductIndexOf(v);
    if v in Axes(d) {
      var j :| 0 <= j < AxisCount(d) && Axes(d)[j] == v;
      ProductInjective(d, j, k);
    }
    if k < AxisCount(d) {
      assert Axes(d)[k] == v;
    }
  }

  /** Of every nonzero {-1,0,1} vector and its negation, exactly one is an
      axis: the one that comes first in the product list. */
  lemma AxesCanonical(v: seq<int>)
    requires IsTernary(v) && IsNonzero(v)
    ensures IsTernary(Neg(v))
    ensures v in Axes(|v|) <==> ProductIndex(v) < ProductIndex(Neg(v))
    ensures v in Axes(|v|) <==> Neg(v) !in Axes(|v|)
  {
    var d, k := |v|, ProductIndex(v);
    var m := AxisCount(d);
    ProductIndexOf(v);
    ProductMiddleIsZero(d);
    var i :| 0 <= i < d && v[i] != 0;
    assert v[i] != ZeroVector(d)[i];
    ProductInjective(d, k, m);
    assert k != m;
    ProductNegIndex(v);
    InAxes(v);
    InAxes(Neg(v));
  }

  // ---------------------------------------------------------------------
  // Line extraction
  // ---------------------------------------------------------------------

  /** The point `c + t * dir`. */
  function At(c: seq<int>, dir: seq<int>, t: int): (p: seq<int>)
    requires |c| == |dir|
    ensures |p| == |c|
  {
    seq(|c|, i requires 0 <= i < |c| => c[i] + t * dir[i])
  }

  lemma AtZero(c: seq<int>, dir: seq<int>)
    requires |c| == |dir|
    ensures At(c, dir, 0) == c
  {
  }

  /** Walking s steps and then t steps is walking u = s + t steps. */
  lemma AtAt(c: seq<int>, dir: seq<int>, s: int, t: int, u: int)
    requires |c| == |dir| && u == s + t
    ensures At(At(c, dir, s), dir, t) == At(c, dir, u)
  {
    forall i | 0 <= i < |c| ensures At(At(c, dir, s), dir, t)[i] == At(c, dir, u)[i] {
      assert u * dir[i] == s * dir[i] + t * dir[i];
    }
  }

  function FirstNonzero(dir: seq<int>): (j: nat)
    requires IsNonzero(dir)
    ensures j < |dir| && dir[j] != 0
  {
    if dir[0] != 0 then 0
    else
      assert IsNonzero(dir[1..]) by {
        var i :| 0 <= i < |dir| && dir[i] != 0;
        assert dir[1..][i - 1] != 0;
      }
      1 + FirstNonzero(dir[1..])
  }

  /** How far a valid point can still walk backwards along the first
      nonzero component of `dir`. */
  function BackMeasure(size: int, c: seq<int>, dir: seq<int>): nat
    requires |c| == |dir| && ValidCoors(size, c) && IsNonzero(dir)
  {
    var j := FirstNonzero(dir);
    if dir[j] > 0 then c[j] else size - 1 - c[j]
  }

  function ForwardMeasure(size: int, c: seq<int>, dir: seq<int>): nat
    requires |c| == |dir| && IsNonzero(dir)
  {
    var j := FirstNonzero(dir);
    if !ValidCoors(size, c) then 0
    else if dir[j] > 0 then size - c[j] else c[j] + 1
  }

  /** The first loop of `_get_line`: step back while the previous point is
      still inside the grid. */
  function WalkBack(size: int, c: seq<int>, dir: seq<int>): (start: seq<int>)
    requires |c| == |dir| && ValidCoors(size, c) && IsNonzero(dir)
    ensures |start| == |c| && ValidCoors(size, start)
    decreases BackMeasure(size, c, dir)
  {
    var prev := At(c, dir, -1);
    if ValidCoors(size, prev) then WalkBack(size, prev, dir) else c
  }

  /** The second loop of `_get_line`: collect cell values while the point is
      inside the grid. */
  function Collect(grid: seq<int>, size: nat, c: seq<int>, dir: seq<int>): seq<int>
    requires |c| == |dir| && IsNonzero(dir) && |grid| == Pow(size, |c|)
    decreases ForwardMeasure(size, c, dir)
  {
    if ValidCoors(size, c) then [Cell(grid, size, c)] + Collect(grid, size, At(c, dir, 1), dir)
    else []
  }

  /** One step of the backward walk keeps its end point and shrinks its
      measure. */
  lemma WalkBackStep(size: int, c: seq<int>, dir: seq<int>)
    requires |c| == |dir| && ValidCoors(size, c) && IsNonzero(dir)
    requires ValidCoors(size, At(c, dir, -1))
    ensures WalkBack(size, At(c, dir, -1), dir) == WalkBack(size, c, dir)
    ensures BackMeasure(size, At(c, dir, -1), dir) < BackMeasure(size, c, dir)
  {
  }

  /** One step of the forward collection takes the current cell and shrinks
      its measure. */
  lemma CollectStep(grid: seq<int>, size: nat, c: seq<int>, dir: seq<int>)
    requires |c| == |dir| && IsNonzero(dir) && |grid| == Pow(size, |c|)
    requires ValidCoors(size, c)
    ensures Collect(grid, size, c, dir) == [Cell(grid, size, c)] + Collect(grid, size, At(c, dir, 1), dir)
    ensures ForwardMeasure(size, At(c, dir, 1), dir) < ForwardMeasure(size, c, dir)
  {
  }

  /** The backward walk stops at a point whose predecessor is outside. */
  lemma WalkBackDone(size: int, c: seq<int>, dir: seq<int>)
    requires |c| == |dir| && ValidCoors(size, c) && IsNonzero(dir)
    requires !ValidCoors(size, At(c, dir, -1))
    ensures WalkBack(size, c, dir) == c
  {
  }

  /** Appending the current cell to the values collected so far keeps
      them a prefix of the whole collection. */
  lemma CollectAppend(grid: seq<int>, size: nat, c: seq<int>, dir: seq<int>, items: seq<int>, whole: seq<int>)
    requires |c| == |dir| && IsNonzero(dir) && |grid| == Pow(size, |c|)
    requires ValidCoors(size, c) && items + Collect(grid, size, c, dir) == whole
    ensures (items + [Cell(grid, size, c)]) + Collect(grid, size, At(c, dir, 1), dir) == whole
    ensures ForwardMeasure(size, At(c, dir, 1), dir) < ForwardMeasure(size, c, dir)
  {
    CollectStep(grid, size, c, dir);
    var rest := Collect(grid, size, At(c, dir, 1), dir);
    assert items + [Cell(grid, size, c)] + rest == items + ([Cell(grid, size, c)] + rest);
  }

  /** Nothing is collected from a point outside the grid. */
  lemma CollectDone(grid: seq<int>, size: nat, c: seq<int>, dir: seq<int>)
    requires |c| == |dir| && IsNonzero(dir) && |grid| == Pow(size, |c|)
    requires !ValidCoors(size, c)
    ensures Collect(grid, size, c, dir) == []
  {
  }

  /** The values along the line through `coors` in direction `dir`. */
  function Line(grid: seq<int>, size: nat, coors: seq<int>, dir: seq<int>): seq<int>
    requires |coors| == |dir| && ValidCoors(size, coors) && IsNonzero(dir)
    requires |grid| == Pow(size, |coors|)
  {
    Collect(grid, size, WalkBack(size, coors, dir), dir)
  }

  /** The backward walk ends b steps back, and the point before its end is
      outside the grid. */
  lemma {:induction false} WalkBackOffset(size: int, c: seq<int>, dir: seq<int>) returns (b: int)
    requires |c| == |dir| && ValidCoors(size, c) && IsNonzero(dir)
    ensures 0 <= b
    ensures WalkBack(size, c, dir) == At(c, dir, -b)
    ensures !ValidCoors(size, At(c, dir, -b - 1))
    decreases BackMeasure(size, c, dir)
  {
    var prev := At(c, dir, -1);
    AtZero(c, dir);
    if ValidCoors(size, prev) {
      var b' := WalkBackOffset(size, prev, dir);
      b := b' + 1;
      AtAt(c, dir, -1, -b', -b);
      AtAt(c, dir, -1, -b' - 1, -b - 1);
    } else {
      b := 0;
    }
  }

  /** Element k of the collected values is the valid cell k steps forward. */
  lemma {:induction false} CollectAt(grid: seq<int>, size: nat, c: seq<int>, dir: seq<int>, k: nat)
    requires |c| == |dir| && IsNonzero(dir) && |grid| == Pow(size, |c|)
    requires k < |Collect(grid, size, c, dir)|
    ensures ValidCoors(size, At(c, dir, k)) && Collect(grid, size, c, dir)[k] == Cell(grid, size, At(c, dir, k))
    decreases k
  {
    AtZero(c, dir);
    var next := At(c, dir, 1);
    var rest := Collect(grid, size, next, dir);
    assert Collect(grid, size, c, dir) == [Cell(grid, size, c)] + rest;
    if k > 0 {
      CollectAt(grid, size, next, dir, k - 1);
      AtAt(c, dir, 1, k - 1, k);
    }
  }

  /** The point just after the collected values is outside the grid. */
  lemma {:induction false} CollectEnd(grid: seq<int>, size: nat, c: seq<int>, dir: seq<int>)
    requires |c| == |dir| && IsNonzero(dir) && |grid| == Pow(size, |c|)
    ensures !ValidCoors(size, At(c, dir, |Collect(grid, size, c, dir)|))
    decreases ForwardMeasure(size, c, dir)
  {
    AtZero(c, dir);
    if ValidCoors(size, c) {
      var next := At(c, dir, 1);
      CollectEnd(grid, size, next, dir);
      var rest := Collect(grid, size, next, dir);
      assert |Collect(grid, size, c, dir)| == 1 + |rest|;
      AtAt(c, dir, 1, |rest|, |Collect(grid, size, c, dir)|);
    }
  }

  /** Element k of the collected values is the cell k steps forward; all of
      those are valid and the point after the last is not. */
  lemma CollectShape(grid: seq<int>, size: nat, c: seq<int>, dir: seq<int>)
    requires |c| == |dir| && IsNonzero(dir) && |grid| == Pow(size, |c|)
    ensures forall k :: 0 <= k < |Collect(grid, size, c, dir)| ==>
      ValidCoors(size, At(c, dir, k)) && Collect(grid, size, c, dir)[k] == Cell(grid, size, At(c, dir, k))
    ensures !ValidCoors(size, At(c, dir, |Collect(grid, size, c, dir)|))
  {
    forall k | 0 <= k < |Collect(grid, size, c, dir)|
      ensures ValidCoors(size, At(c, dir, k)) && Collect(grid, size, c, dir)[k] == Cell(grid, size, At(c, dir, k))
    {
      CollectAt(grid, size, c, dir, k);
    }
    CollectEnd(grid, size, c, dir);
  }

  lemma MulBetween(t1: int, t: int, t2: int, x: int)
    requires t1 <= t <= t2
    ensures x >= 0 ==> t1 * x <= t * x <= t2 * x
    ensures x < 0 ==> t2 * x <= t * x <= t1 * x
  {
    assert (t - t1) * x == t * x - t1 * x;
    assert (t2 - t) * x == t2 * x - t * x;
    if x >= 0 {
      assert (t - t1) * x >= 0 && (t2 - t) * x >= 0;
    } else {
      assert (t - t1) * x <= 0 && (t2 - t) * x <= 0;
    }
  }

  /** The grid is a box, so the valid points of a line form an interval. */
  lemma ValidBetween(size: int, c: seq<int>, dir: seq<int>, t1: int, t: int, t2: int)
    requires |c| == |dir| && t1 <= t <= t2
    requires ValidCoors(size, At(c, dir, t1)) && ValidCoors(size, At(c, dir, t2))
    ensures ValidCoors(size, At(c, dir, t))
  {
    forall i | 0 <= i < |c| ensures 0 <= At(c, dir, t)[i] < size {
      MulBetween(t1, t, t2, dir[i]);
      assert At(c, dir, t1)[i] == c[i] + t1 * dir[i];
      assert At(c, dir, t2)[i] == c[i] + t2 * dir[i];
    }
  }

  /** A line of a grid with `size` cells per side holds at most `size` cells. */
  lemma LineLengthBound(size: int, s: seq<int>, dir: seq<int>, n: nat)
    requires |s| == |dir| && IsNonzero(dir) && 1 <= n
    requires ValidCoors(size, At(s, dir, 0)) && ValidCoors(size, At(s, dir, n - 1))
    ensures n <= size
  {
    var j := FirstNonzero(dir);
    var a, z := At(s, dir, 0)[j], At(s, dir, n - 1)[j];
    assert z - a == (n - 1) * dir[j];
    if dir[j] > 0 {
      MulMono(1, dir[j], n - 1);
    } else {
      MulMono(1, -dir[j], n - 1);
      assert (n - 1) * (-dir[j]) == a - z;
    }
  }

  /** The shape of `Line` (the contract of `_get_line`): it holds between 1
      and `size` values, value k is the cell k steps forward from the start,
      the start is the cell `coors` walked back b steps, and the line is
      maximal at both ends. */
  lemma LineShape(grid: seq<int>, size: nat, coors: seq<int>, dir: seq<int>) returns (b: int)
    ensures 0 <= b
    requires |coors| == |dir| && ValidCoors(size, coors) && IsNonzero(dir)
    requires |grid| == Pow(size, |coors|)
    ensures var start, line := WalkBack(size, coors, dir), Line(grid, size, coors, dir);
      && 1 <= |line| <= size
      && start == At(coors, dir, -b)
      && (forall k :: 0 <= k < |line| ==>
            ValidCoors(size, At(start, dir, k)) && line[k] == Cell(grid, size, At(start, dir, k)))
      && !ValidCoors(size, At(start, dir, -1))
      && !ValidCoors(size, At(start, dir, |line|))
  {
    var start, line := WalkBack(size, coors, dir), Line(grid, size, coors, dir);
    b := WalkBackOffset(size, coors, dir);
    CollectShape(grid, size, start, dir);
    AtAt(coors, dir, -b, -1, -b - 1);
    AtZero(start, dir);
    if |line| == 0 {
      assert false;
    }
    LineLengthBound(size, start, dir, |line|);
  }

  /** A line holds between 1 and `size` values. */
  lemma LineLength(grid: seq<int>, size: nat, coors: seq<int>, dir: seq<int>)
    requires |coors| == |dir| && ValidCoors(size, coors) && IsNonzero(dir)
    requires |grid| == Pow(size, |coors|)
    ensures 1 <= |Line(grid, size, coors, dir)| <= size
  {
    var b := LineShape(grid, size, coors, dir);
  }

  /** The line through a cell holds that cell's value, b steps from its
      start. */
  lemma LineContainsCell(grid: seq<int>, size: nat, coors: seq<int>, dir: seq<int>) returns (b: int)
    ensures 0 <= b
    requires |coors| == |dir| && ValidCoors(size, coors) && IsNonzero(dir)
    requires |grid| == Pow(size, |coors|)
    ensures b < |Line(grid, size, coors, dir)|
    ensures At(WalkBack(size, coors, dir), dir, b) == coors
    ensures Line(grid, size, coors, dir)[b] == Cell(grid, size, coors)
  {
    var start, line := WalkBack(size, coors, dir), Line(grid, size, coors, dir);
    b := WalkBackOffset(size, coors, dir);
    AtAt(coors, dir, -b, b, 0);
    AtZero(coors, dir);
    CollectEnd(grid, size, start, dir);
    if |line| <= b {
      AtZero(start, dir);
      ValidBetween(size, start, dir, 0, |line|, b);
    }
    CollectAt(grid, size, start, dir, b);
  }

  /** A point b steps back whose predecessor is invalid is the earliest
      valid point of the line. */
  lemma EarliestValid(size: int, c: seq<int>, dir: seq<int>, b: int, t: int)
    requires |c| == |dir| && ValidCoors(size, c) && 0 <= b
    requires !ValidCoors(size, At(c, dir, -b - 1))
    requires ValidCoors(size, At(c, dir, t))
    ensures -b <= t
  {
    if t < -b {
      AtZero(c, dir);
      ValidBetween(size, c, dir, t, -b - 1, 0);
    }
  }

  /** Two points of one line that both are earliest valid points (the
      point before each is outside the grid) are the same point. */
  lemma SameEarliest(size: int, c: seq<int>, dir: seq<int>, b: int, m: int, b': int)
    requires |c| == |dir| && 0 <= b && 0 <= b'
    requires ValidCoors(size, c) && !ValidCoors(size, At(c, dir, -b - 1))
    requires ValidCoors(size, At(c, dir, m)) && !ValidCoors(size, At(c, dir, m - b' - 1))
    requires ValidCoors(size, At(c, dir, -b)) && ValidCoors(size, At(c, dir, m - b'))
    ensures m - b' == -b
  {
    EarliestValid(size, c, dir, b, m - b');
    var other := At(c, dir, m);
    AtAt(c, dir, m, -b - m, -b);
    AtAt(c, dir, m, -b' - 1, m - b' - 1);
    AtAt(c, dir, m, -b', m - b');
    AtZero(c, dir);
    EarliestValid(size, other, dir, b', -b - m);
  }

  /** The earliest valid point reached from `c` and the one reached from
      the point m steps along the line coincide. */
  lemma SameStart(size: int, c: seq<int>, dir: seq<int>, m: int, b: int, b': int)
    requires |c| == |dir| && 0 <= b && 0 <= b'
    requires ValidCoors(size, c) && ValidCoors(size, At(c, dir, m))
    requires ValidCoors(size, At(c, dir, -b)) && !ValidCoors(size, At(c, dir, -b - 1))
    requires ValidCoors(size, At(At(c, dir, m), dir, -b'))
    requires !ValidCoors(size, At(At(c, dir, m), dir, -b' - 1))
    ensures At(At(c, dir, m), dir, -b') == At(c, dir, -b)
  {
    AtAt(c, dir, m, -b', m - b');
    AtAt(c, dir, m, -b' - 1, m - b' - 1);
    SameEarliest(size, c, dir, b, m, b');
    AtAt(c, dir, m, -b', -b);
  }

  /** Querying any other valid cell on the same line, in the same direction,
      reaches the same start and yields the identical line. */
  lemma LineSameAlongLine(grid: seq<int>, size: nat, coors: seq<int>, dir: seq<int>, m: int)
    requires |coors| == |dir| && ValidCoors(size, coors) && IsNonzero(dir)
    requires |grid| == Pow(size, |coors|)
    requires ValidCoors(size, At(coors, dir, m))
    ensures WalkBack(size, At(coors, dir, m), dir) == WalkBack(size, coors, dir)
    ensures Line(grid, size, At(coors, dir, m), dir) == Line(grid, size, coors, dir)
  {
    var other := At(coors, dir, m);
    var b := WalkBackOffset(size, coors, dir);
    var b' := WalkBackOffset(size, other, dir);
    SameStart(size, coors, dir, m, b, b');
  }

  // ---------------------------------------------------------------------
  // Run detection and the win condition
  // ---------------------------------------------------------------------

  /** The n entries from index i on all equal x. */
  predicate RunAt(items: seq<int>, x: int, i: int, n: int)
    requires 0 <= i && i + n <= |items|
  {
    forall k :: i <= k < i + n ==> items[k] == x
  }

  /** `items` holds n >= 1 consecutive copies of x. */
  predicate HasRun(items: seq<int>, x: int, n: int)
  {
    n >= 1 && exists i :: 0 <= i && i + n <= |items| && RunAt(items, x, i, n)
  }

  /** The length of the run of x at the end of s (the `chain` counter). */
  function TrailingRun(s: seq<int>, x: int): (r: nat)
    ensures r <= |s|
  {
    if |s| == 0 || s[|s| - 1] != x then 0 else 1 + TrailingRun(s[..|s| - 1], x)
  }

  /** The last n entries all equal x exactly when the trailing run is at
      least n long. */
  lemma {:induction false} TrailingRunWindow(s: seq<int>, x: int, n: nat)
    requires n <= |s|
    ensures RunAt(s, x, |s| - n, n) <==> n <= TrailingRun(s, x)
  {
    if n > 0 {
      var p := s[..|s| - 1];
      TrailingRunWindow(p, x, n - 1);
      assert RunAt(s, x, |s| - n, n) <==> s[|s| - 1] == x && RunAt(p, x, |p| - (n - 1), n - 1);
    }
  }

  /** The win condition of `_is_game_over`: some axis line through the
      coordinates of `action` holds `connectN` consecutive copies of the
      symbol in that cell. */
  predicate WinsAt(grid: seq<int>, size: nat, dimension: nat, connectN: int, action: nat)
    requires |grid| == Pow(size, dimension) && action < |grid|
  {
    var coors := IndexToCoors(size, dimension, action);
    exists k :: 0 <= k < |Axes(dimension)| && WinsAlong(grid, size, coors, Axes(dimension)[k], connectN)
  }

  /** The line through `coors` along `dir` holds `connectN` consecutive
      copies of the symbol at `coors`. */
  predicate WinsAlong(grid: seq<int>, size: nat, coors: seq<int>, dir: seq<int>, connectN: int)
  {
    && |coors| == |dir| && ValidCoors(size, coors) && IsNonzero(dir)
    && |grid| == Pow(size, |coors|)
    && HasRun(Line(grid, size, coors, dir), Cell(grid, size, coors), connectN)
  }

  /** No axis before the j-th one wins through `coors`. */
  predicate NoWinBefore(grid: seq<int>, size: nat, coors: seq<int>, connectN: int, j: nat)
    requires j <= |Axes(|coors|)|
  {
    forall k :: 0 <= k < j ==> !WinsAlong(grid, size, coors, Axes(|coors|)[k], connectN)
  }

  /** A winning axis decides `_is_game_over`. */
  lemma WinScanHit(grid: seq<int>, size: nat, dimension: nat, connectN: int, action: nat, j: nat)
    requires |grid| == Pow(size, dimension) && action < |grid| && j < |Axes(dimension)|
    requires WinsAlong(grid, size, IndexToCoors(size, dimension, action), Axes(dimension)[j], connectN)
    ensures WinsAt(grid, size, dimension, connectN, action)
  {
  }

  /** After a non-winning axis the scan of `_is_game_over` carries on. */
  lemma WinScanMiss(grid: seq<int>, size: nat, coors: seq<int>, connectN: int, j: nat)
    requires j < |Axes(|coors|)| && NoWinBefore(grid, size, coors, connectN, j)
    requires !WinsAlong(grid, size, coors, Axes(|coors|)[j], connectN)
    ensures NoWinBefore(grid, size, coors, connectN, j + 1)
  {
  }

  /** If no axis wins, the game is not won. */
  lemma WinScanEnd(grid: seq<int>, size: nat, dimension: nat, connectN: int, action: nat)
    requires |grid| == Pow(size, dimension) && action < |grid|
    ensures var coors := IndexToCoors(size, dimension, action);
      NoWinBefore(grid, size, coors, connectN, |Axes(dimension)|) ==> !WinsAt(grid, size, dimension, connectN, action)
  {
  }

  /** A run longer than the grid's side can never be completed. */
  lemma NoWinBeyondSize(grid: seq<int>, size: nat, dimension: nat, connectN: int, action: nat)
    requires |grid| == Pow(size, dimension) && action < |grid|
    requires connectN > size
    ensures !WinsAt(grid, size, dimension, connectN, action)
  {
    var coors := IndexToCoors(size, dimension, action);
    AxesShape(dimension);
    forall k | 0 <= k < |Axes(dimension)|
      ensures !WinsAlong(grid, size, coors, Axes(dimension)[k], connectN)
    {
      var b := LineShape(grid, size, coors, Axes(dimension)[k]);
    }
  }
}
