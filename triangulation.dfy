/** Triangulation of the vertex lattice. Every cell of the grid (the square
    between four neighbouring lattice points) is split into two triangles
    along the diagonal from its top-right to its bottom-left corner. Cells
    are visited row by row, left to right, and each contributes its two
    triangles in a fixed order. */
module Triangulation {
  import opened Raster

  /** A triangle: three vertex indices, in the order they are emitted. */
  datatype Tri = Tri(a: nat, b: nat, c: nat)

  /** Number of cells along an axis of `n` lattice points: the length of
      `range(n - 1)`, which is empty for fewer than two points. */
  function Cells(n: nat): nat
  {
    if n < 2 then 0 else n - 1
  }

  /** The two triangles of cell (r, c) of a lattice `w` points wide, with
      corners i0 (top-left), i1 (top-right), i2 (bottom-left) and i3
      (bottom-right): first (i0, i2, i1), then (i1, i2, i3). */
  function CellTris(w: nat, r: nat, c: nat): seq<Tri>
  {
    var i0 := r * w + c;
    var i1 := r * w + (c + 1);
    var i2 := (r + 1) * w + c;
    var i3 := (r + 1) * w + (c + 1);
    [Tri(i0, i2, i1), Tri(i1, i2, i3)]
  }

  /** Triangles of the first `n` cells of row `r`, left to right. */
  function RowTris(w: nat, r: nat, n: nat): (t: seq<Tri>)
    ensures |t| == 2 * n
  {
    if n == 0 then [] else RowTris(w, r, n - 1) + CellTris(w, r, n - 1)
  }

  /** Triangles of the first `m` rows of cells, `cw` cells to a row, top to
      bottom. */
  function RowsTris(w: nat, cw: nat, m: nat): (t: seq<Tri>)
    ensures |t| == 2 * (m * cw)
  {
    if m == 0 then []
    else
      var t := RowsTris(w, cw, m - 1) + RowTris(w, m - 1, cw);
      assert |t| == 2 * ((m - 1) * cw) + 2 * cw == 2 * (m * cw);
      t
  }

  /** All triangles of an `h` x `w` lattice, in the order they are emitted:
      two per cell, none at all when either side has fewer than two
      points. */
  function GridFaces(h: nat, w: nat): (t: seq<Tri>)
    ensures |t| == 2 * (Cells(h) * Cells(w))
    ensures t == [] <==> h < 2 || w < 2
  {
    RowsTris(w, Cells(w), Cells(h))
  }

  /** Closed form of triangle `n` of a lattice `w` points wide: it belongs
      to cell `q = n / 2`, which is cell (q / (w-1), q % (w-1)) in
      row-major order, and is that cell's first triangle when `n` is even
      and its second when `n` is odd. */
  function FaceAt(w: nat, n: nat): Tri
    requires w >= 2
  {
    var q := n / 2;
    var r := q / (w - 1);
    var c := q % (w - 1);
    var i0 := r * w + c;
    var i1 := r * w + (c + 1);
    var i2 := (r + 1) * w + c;
    var i3 := (r + 1) * w + (c + 1);
    if n % 2 == 0 then Tri(i0, i2, i1) else Tri(i1, i2, i3)
  }

  /** The face list, built as the program builds it: two nested loops over
      the cells, appending two triangles per cell. */
  method BuildFaces(h: nat, w: nat) returns (faces: seq<Tri>)
    ensures faces == GridFaces(h, w)
    ensures |faces| == 2 * (Cells(h) * Cells(w))
    ensures forall n :: 0 <= n < |faces| ==> faces[n] == FaceAt(w, n)
  {
    faces := [];
    var r := 0;
    while r < h - 1
      invariant r <= Cells(h)
      invariant faces == RowsTris(w, Cells(w), r)
    {
      var c := 0;
      while c < w - 1
        invariant c <= Cells(w)
        invariant faces == RowsTris(w, Cells(w), r) + RowTris(w, r, c)
      {
        var i0 := r * w + c;
        var i1 := r * w + (c + 1);
        var i2 := (r + 1) * w + c;
        var i3 := (r + 1) * w + (c + 1);
        faces := faces + [Tri(i0, i2, i1)];
        faces := faces + [Tri(i1, i2, i3)];
        c := c + 1;
      }
      r := r + 1;
    }
    forall n | 0 <= n < |faces| ensures faces[n] == FaceAt(w, n) {
      FaceAtIsGridFace(h, w, n);
    }
  }

  /** Within row `r`, the triangles of cell `c` sit at positions 2c and
      2c + 1. */
  lemma {:induction false} RowTrisAt(w: nat, r: nat, n: nat, c: nat)
    requires c < n
    ensures RowTris(w, r, n)[2 * c] == CellTris(w, r, c)[0]
    ensures RowTris(w, r, n)[2 * c + 1] == CellTris(w, r, c)[1]
    decreases n
  {
    if c < n - 1 {
      RowTrisAt(w, r, n - 1, c);
    }
  }

  /** Within the first `m` rows, the triangles of cell (r, c) sit at
      positions 2(r * cw + c) and 2(r * cw + c) + 1. */
  lemma {:induction false} RowsTrisAt(w: nat, cw: nat, m: nat, r: nat, c: nat)
    requires r < m && c < cw
    ensures 2 * (r * cw + c) + 1 < |RowsTris(w, cw, m)|
    ensures RowsTris(w, cw, m)[2 * (r * cw + c)] == CellTris(w, r, c)[0]
    ensures RowsTris(w, cw, m)[2 * (r * cw + c) + 1] == CellTris(w, r, c)[1]
    decreases m
  {
    FlatIndex(m, cw, r, c);
    var prefix, row := RowsTris(w, cw, m - 1), RowTris(w, m - 1, cw);
    assert RowsTris(w, cw, m) == prefix + row;
    var i := 2 * (r * cw + c);
    if r < m - 1 {
      FlatIndex(m - 1, cw, r, c);
      assert i + 1 < |prefix|;
      RowsTrisAt(w, cw, m - 1, r, c);
    } else {
      assert |prefix| == 2 * (r * cw);
      assert i == |prefix| + 2 * c;
      RowTrisAt(w, r, cw, c);
    }
  }

  /** Cell (r, c) contributes triangles 2(r(w-1) + c) and 2(r(w-1) + c) + 1
      of the face list: first (i0, i2, i1), then (i1, i2, i3). */
  lemma CellFaces(h: nat, w: nat, r: nat, c: nat)
    requires r < Cells(h) && c < Cells(w)
    ensures 2 * (r * Cells(w) + c) + 1 < |GridFaces(h, w)|
    ensures GridFaces(h, w)[2 * (r * Cells(w) + c)] ==
      Tri(r * w + c, (r + 1) * w + c, r * w + c + 1)
    ensures GridFaces(h, w)[2 * (r * Cells(w) + c) + 1] ==
      Tri(r * w + c + 1, (r + 1) * w + c, (r + 1) * w + c + 1)
  {
    RowsTrisAt(w, Cells(w), Cells(h), r, c);
  }

  /** Triangle `n` of the face list belongs to cell (r, c): it is that
      cell's first triangle (i0, i2, i1) when `n` is even and its second
      (i1, i2, i3) when `n` is odd. */
  lemma FaceCell(h: nat, w: nat, n: nat) returns (r: nat, c: nat)
    requires n < |GridFaces(h, w)|
    ensures r < Cells(h) && c < Cells(w)
    ensures var i0, i1, i2, i3 := r * w + c, r * w + c + 1, (r + 1) * w + c, (r + 1) * w + c + 1;
      GridFaces(h, w)[n] == if n % 2 == 0 then Tri(i0, i2, i1) else Tri(i1, i2, i3)
  {
    r, c := CellOf(Cells(h), Cells(w), n / 2);
    CellFaces(h, w, r, c);
  }

  /** Every triangle of the face list is given by the closed form FaceAt. */
  lemma FaceAtIsGridFace(h: nat, w: nat, n: nat)
    requires n < |GridFaces(h, w)|
    ensures w >= 2 && GridFaces(h, w)[n] == FaceAt(w, n)
  {
    var cw := Cells(w);
    var q := n / 2;
    assert q < Cells(h) * cw;
    UnflatIndex(Cells(h), cw, q);
    CellFaces(h, w, q / cw, q % cw);
  }

  /** Every triangle names three distinct vertices of the lattice: each
      index lies in [0, h * w). */
  lemma FacesWellFormed(h: nat, w: nat)
    ensures forall n :: 0 <= n < |GridFaces(h, w)| ==>
      var t := GridFaces(h, w)[n];
      t.a < h * w && t.b < h * w && t.c < h * w &&
      t.a != t.b && t.b != t.c && t.a != t.c
  {
    var faces := GridFaces(h, w);
    forall n | 0 <= n < |faces|
      ensures faces[n].a < h * w && faces[n].b < h * w && faces[n].c < h * w
      ensures faces[n].a != faces[n].b && faces[n].b != faces[n].c && faces[n].a != faces[n].c
    {
      var r, c := FaceCell(h, w, n);
      CornersOrdered(h, w, r, c);
    }
  }

  /** The corners of cell (r, c) are increasing vertex indices, the last
      still inside the lattice. */
  lemma CornersOrdered(h: nat, w: nat, r: nat, c: nat)
    requires r < Cells(h) && c < Cells(w)
    ensures r * w + c < r * w + c + 1 < (r + 1) * w + c < (r + 1) * w + c + 1 < h * w
  {
    FlatIndex(h, w, r + 1, c + 1);
  }

  /** The two triangles of a cell share the edge between its top-right and
      bottom-left corners, and that diagonal runs the same way in every
      cell: its bottom-left end is `w - 1` positions after its top-right
      end. */
  lemma SharedDiagonal(h: nat, w: nat, q: nat)
    requires 2 * q + 1 < |GridFaces(h, w)|
    ensures var first, second := GridFaces(h, w)[2 * q], GridFaces(h, w)[2 * q + 1];
      first.b == second.b && first.c == second.a && first.b == first.c + (w - 1)
  {
    var r, c := CellOf(Cells(h), Cells(w), q);
    CellFaces(h, w, r, c);
  }

  /** Whether triangle `t` has `k` as one of its corners. */
  predicate Uses(t: Tri, k: nat)
  {
    t.a == k || t.b == k || t.c == k
  }

  /** When both sides have at least two points, every vertex of the lattice
      is a corner of some triangle; otherwise no vertex is. */
  lemma EveryVertexUsed(h: nat, w: nat, k: nat)
    requires k < h * w
    ensures (exists n :: 0 <= n < |GridFaces(h, w)| && Uses(GridFaces(h, w)[n], k)) <==> h >= 2 && w >= 2
  {
    var faces := GridFaces(h, w);
    if h >= 2 && w >= 2 {
      var r, c := CellOf(h, w, k);
      var cr := if r < h - 1 then r else r - 1;
      var cc := if c < w - 1 then c else c - 1;
      CellFaces(h, w, cr, cc);
      var n := 2 * (cr * Cells(w) + cc);
      if r < h - 1 && c < w - 1 {
        assert Uses(faces[n], k);
      } else if r < h - 1 {
        assert Uses(faces[n], k);
      } else if c < w - 1 {
        assert Uses(faces[n], k);
      } else {
        assert Uses(faces[n + 1], k);
      }
    }
  }
}
