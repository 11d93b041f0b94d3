/** The vertex lattice: vertices sit on a regular grid spanning [-0.5, 0.5]
    along both axes whatever the resolution, the row axis negated so that
    the top row of the image is the top edge of the mesh, and each vertex
    takes its height from the pixel under it. Vertices come in row-major
    order, so vertex `k` belongs to pixel `k`. */
module Lattice {
  import opened Raster
  import opened HeightField

  /** One lattice point. */
  datatype Vertex = Vertex(x: real, y: real, z: real)

  /** Fraction `i / (n - 1)` of the way along `n` evenly spaced points; a
      single point sits at the start. */
  function Fraction(i: nat, n: nat): (t: real)
    requires i < n
    ensures 0.0 <= t <= 1.0
    ensures n >= 2 ==> (t == 0.0 <==> i == 0) && (t == 1.0 <==> i == n - 1)
  {
    if n == 1 then 0.0 else i as real / (n - 1) as real
  }

  /** Fractions grow strictly along the points. */
  lemma FractionIncreasing(i: nat, j: nat, n: nat)
    requires i < j < n
    ensures Fraction(i, n) < Fraction(j, n)
  {
    var d := (n - 1) as real;
    assert i as real / d < j as real / d by {
      assert j as real / d - i as real / d == (j - i) as real / d;
    }
  }

  /** Point `i` of `n` evenly spaced ones from `lo` to `hi`. */
  function Point(lo: real, hi: real, n: nat, i: nat): real
    requires i < n
  {
    lo + (hi - lo) * Fraction(i, n)
  }

  lemma PointBetween(lo: real, hi: real, n: nat, i: nat)
    requires lo <= hi && i < n
    ensures lo <= Point(lo, hi, n, i) <= hi
  {
    var d, t := hi - lo, Fraction(i, n);
    ScaleFraction(d, t);
    assert Point(lo, hi, n, i) == lo + d * t;
  }

  /** A fraction of a non-negative length lies between 0 and that length. */
  lemma ScaleFraction(a: real, t: real)
    requires 0.0 <= a && 0.0 <= t <= 1.0
    ensures 0.0 <= a * t <= a
  {
    ScaleMono(a, 0.0, t);
    ScaleMono(a, t, 1.0);
  }

  lemma PointIncreasing(lo: real, hi: real, n: nat, i: nat, j: nat)
    requires lo < hi && i < j < n
    ensures Point(lo, hi, n, i) < Point(lo, hi, n, j)
  {
    FractionIncreasing(i, j, n);
    var d, ti, tj := hi - lo, Fraction(i, n), Fraction(j, n);
    ScaleStrict(d, ti, tj);
    assert Point(lo, hi, n, i) == lo + d * ti;
    assert Point(lo, hi, n, j) == lo + d * tj;
  }

  /** Scaling by a positive factor keeps strict order. */
  lemma ScaleStrict(a: real, t: real, u: real)
    requires 0.0 < a && t < u
    ensures a * t < a * u
  {
    PositiveProduct(a, u - t);
    assert a * u - a * t == a * (u - t);
  }

  lemma PositiveProduct(a: real, b: real)
    requires 0.0 < a && 0.0 < b
    ensures 0.0 < a * b
  {
  }

  /** Scaling by a non-negative factor keeps order. */
  lemma ScaleMono(a: real, t: real, u: real)
    requires 0.0 <= a && t <= u
    ensures a * t <= a * u
  {
    assert a * u - a * t == a * (u - t);
  }

  /** `n` evenly spaced values from `lo` to `hi`, both included, as
      `numpy.linspace(lo, hi, n)` returns them; a single value is `lo`. */
  function Linspace(lo: real, hi: real, n: nat): (s: seq<real>)
    ensures |s| == n
    ensures n >= 1 ==> s[0] == lo
    ensures n >= 2 ==> s[n - 1] == hi
    ensures lo <= hi ==> forall i :: 0 <= i < n ==> lo <= s[i] <= hi
    ensures lo < hi ==> forall i, j :: 0 <= i < j < n ==> s[i] < s[j]
  {
    var s := seq(n, i requires 0 <= i < n => Point(lo, hi, n, i));
    assert lo <= hi ==> forall i :: 0 <= i < n ==> lo <= s[i] <= hi by {
      if lo <= hi {
        forall i | 0 <= i < n ensures lo <= s[i] <= hi {
          PointBetween(lo, hi, n, i);
        }
      }
    }
    assert lo < hi ==> forall i, j :: 0 <= i < j < n ==> s[i] < s[j] by {
      if lo < hi {
        forall i, j | 0 <= i < j < n ensures s[i] < s[j] {
          PointIncreasing(lo, hi, n, i, j);
        }
      }
    }
    s
  }

  /** x coordinate of lattice column `c` in an image `cols` wide. */
  function ColumnX(cols: nat, c: nat): real
    requires c < cols
  {
    Linspace(-0.5, 0.5, cols)[c]
  }

  /** y coordinate of lattice row `r` in an image `rows` high: the linspace
      value negated, so row 0 is at the top. */
  function RowY(rows: nat, r: nat): real
    requires r < rows
  {
    -Linspace(-0.5, 0.5, rows)[r]
  }

  /** The vertices of the mesh, one per pixel in row-major order. */
  function Vertices(img: Gray, invert: bool, zScale: real): (vs: seq<Vertex>)
    ensures |vs| == img.rows * img.cols
  {
    seq(|img.px|, k requires 0 <= k < |img.px| =>
      UnflatIndex(img.rows, img.cols, k);
      Vertex(ColumnX(img.cols, k % img.cols), RowY(img.rows, k / img.cols),
             Height(img.px[k], invert, zScale)))
  }

  /** Vertex `r * cols + c` lies over pixel (r, c): at x = -0.5 + c/(cols-1)
      and y = 0.5 - r/(rows-1) (at the start of an axis with a single
      point), with the height of that pixel. */
  lemma VertexAt(img: Gray, invert: bool, zScale: real, r: nat, c: nat)
    requires r < img.rows && c < img.cols
    ensures r * img.cols + c < |Vertices(img, invert, zScale)|
    ensures Vertices(img, invert, zScale)[r * img.cols + c] ==
      Vertex(-0.5 + Fraction(c, img.cols), 0.5 - Fraction(r, img.rows),
             Height(img.px[r * img.cols + c], invert, zScale))
  {
    FlatIndex(img.rows, img.cols, r, c);
  }

  /** Every vertex lies in the square [-0.5, 0.5] x [-0.5, 0.5], and its
      height between 0 and `zScale`. */
  lemma Footprint(img: Gray, invert: bool, zScale: real)
    ensures forall k :: 0 <= k < |Vertices(img, invert, zScale)| ==>
      var v := Vertices(img, invert, zScale)[k];
      -0.5 <= v.x <= 0.5 && -0.5 <= v.y <= 0.5 &&
      (0.0 <= zScale ==> 0.0 <= v.z <= zScale)
  {
    var vs := Vertices(img, invert, zScale);
    forall k | 0 <= k < |vs|
      ensures -0.5 <= vs[k].x <= 0.5 && -0.5 <= vs[k].y <= 0.5
    {
      VertexInSquare(img, invert, zScale, k);
    }
  }

  lemma VertexInSquare(img: Gray, invert: bool, zScale: real, k: nat)
    requires k < |img.px|
    ensures var v := Vertices(img, invert, zScale)[k];
      -0.5 <= v.x <= 0.5 && -0.5 <= v.y <= 0.5
  {
    var r, c := CellOf(img.rows, img.cols, k);
    VertexAt(img, invert, zScale, r, c);
    var tc, tr := Fraction(c, img.cols), Fraction(r, img.rows);
    assert 0.0 <= tc <= 1.0 && 0.0 <= tr <= 1.0;
  }

  /** With at least two points along each axis the lattice reaches every
      edge of the square: the first vertex is the top-left corner
      (-0.5, 0.5) and the last the bottom-right corner (0.5, -0.5). */
  lemma CornersReached(img: Gray, invert: bool, zScale: real)
    requires img.rows >= 2 && img.cols >= 2
    ensures var vs := Vertices(img, invert, zScale);
      |vs| >= 4 &&
      vs[0].x == -0.5 && vs[0].y == 0.5 &&
      vs[|vs| - 1].x == 0.5 && vs[|vs| - 1].y == -0.5
  {
    var rows, cols := img.rows, img.cols;
    var vs := Vertices(img, invert, zScale);
    var last := (rows - 1) * cols + (cols - 1);
    LastCell(rows, cols);
    VertexAt(img, invert, zScale, 0, 0);
    VertexAt(img, invert, zScale, rows - 1, cols - 1);
    assert vs[0].x == -0.5 + Fraction(0, cols) && vs[0].y == 0.5 - Fraction(0, rows);
    assert vs[last].x == -0.5 + Fraction(cols - 1, cols) && vs[last].y == 0.5 - Fraction(rows - 1, rows);
  }

  /** The bottom-right cell of a grid with at least two columns is the last
      flat index, and the grid has at least four cells. */
  lemma LastCell(rows: nat, cols: nat)
    requires rows >= 2 && cols >= 2
    ensures (rows - 1) * cols + (cols - 1) == rows * cols - 1
    ensures rows * cols >= 4
  {
    assert (rows - 1) * cols == rows * cols - cols;
    MulMono(2, rows, cols);
  }

  /** An image one pixel wide gives a lattice on the left edge only: every
      x is -0.5, because linspace with one point returns its start. */
  lemma SingleColumnOnLeftEdge(img: Gray, invert: bool, zScale: real)
    requires img.cols == 1
    ensures forall k :: 0 <= k < |Vertices(img, invert, zScale)| ==>
      Vertices(img, invert, zScale)[k].x == -0.5
  {
    var vs := Vertices(img, invert, zScale);
    forall k | 0 <= k < |vs| ensures vs[k].x == -0.5 {
      var r, c := CellOf(img.rows, img.cols, k);
      VertexAt(img, invert, zScale, r, c);
    }
  }

  /** An image one pixel high gives a lattice on the top edge only: every
      y is 0.5, the negation of the start of a one-point linspace. */
  lemma SingleRowOnTopEdge(img: Gray, invert: bool, zScale: real)
    requires img.rows == 1
    ensures forall k :: 0 <= k < |Vertices(img, invert, zScale)| ==>
      Vertices(img, invert, zScale)[k].y == 0.5
  {
    var vs := Vertices(img, invert, zScale);
    forall k | 0 <= k < |vs| ensures vs[k].y == 0.5 {
      var r, c := CellOf(img.rows, img.cols, k);
      VertexAt(img, invert, zScale, r, c);
    }
  }

  /** No two vertices share a position in the plane: the lattice points are
      pairwise distinct. */
  lemma PositionsDistinct(img: Gray, invert: bool, zScale: real, k1: nat, k2: nat)
    requires k1 < k2 < |Vertices(img, invert, zScale)|
    ensures var vs := Vertices(img, invert, zScale);
      vs[k1].x != vs[k2].x || vs[k1].y != vs[k2].y
  {
    var vs := Vertices(img, invert, zScale);
    var w := img.cols;
    var r1, c1 := CellOf(img.rows, w, k1);
    var r2, c2 := CellOf(img.rows, w, k2);
    VertexAt(img, invert, zScale, r1, c1);
    VertexAt(img, invert, zScale, r2, c2);
    if c1 != c2 {
      if c1 < c2 { FractionIncreasing(c1, c2, w); } else { FractionIncreasing(c2, c1, w); }
    } else {
      assert r1 != r2;
      if r1 < r2 { FractionIncreasing(r1, r2, img.rows); } else { FractionIncreasing(r2, r1, img.rows); }
    }
  }
}
