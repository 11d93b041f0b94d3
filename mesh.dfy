/** The whole conversion of a grey-level image into a heightmap mesh: read,
    resample, optionally smooth, derive heights, lay out the vertex lattice,
    triangulate and colour. Decoding, resampling and smoothing are OpenCV's
    and come in as parameters; the mesh is the one handed to the mesh
    library, before any processing or export. */
module HeightmapMesh {
  import opened Raster
  import opened Preprocess
  import opened HeightField
  import opened Lattice
  import opened Triangulation
  import opened VertexColours

  /** The arrays the mesh is made from: positions, triangles and one colour
      per vertex. */
  datatype Mesh = Mesh(vertices: seq<Vertex>, faces: seq<Tri>, colours: seq<Rgba>)

  /** The image file could not be read or decoded. */
  datatype LoadError = ImageNotReadable

  /** One colour per vertex, and every triangle corner names a vertex. */
  predicate WellFormed(m: Mesh)
  {
    |m.colours| == |m.vertices| &&
    forall n :: 0 <= n < |m.faces| ==>
      m.faces[n].a < |m.vertices| && m.faces[n].b < |m.vertices| && m.faces[n].c < |m.vertices|
  }

  /** Builds the mesh of a decoded image, or fails when the image could not
      be read. `resize` and `blur` stand for the library's area resampling
      and Gaussian blur; the lattice size is taken from the grid they
      produce, which is the target size when they keep the library's
      shape promises. */
  method ImgToHeightmapMesh(decoded: Option<Gray>, resize: (Gray, nat, nat) -> Gray,
                            blur: (Gray, nat) -> Gray, targetWidth: nat, targetHeight: nat,
                            zScale: real, invert: bool, blurKsize: int)
    returns (res: Result<Mesh, LoadError>)
    ensures decoded.None? <==> res == Failure(ImageNotReadable)
    ensures res.Success? ==>
      var grid := Preprocessed(decoded.value, resize, blur, targetWidth, targetHeight, blurKsize);
      var m := res.value;
      m.vertices == Vertices(grid, invert, zScale) &&
      m.faces == GridFaces(grid.rows, grid.cols) &&
      m.colours == Colours(grid, invert) &&
      |m.vertices| == grid.rows * grid.cols &&
      |m.faces| == 2 * (Cells(grid.rows) * Cells(grid.cols)) &&
      WellFormed(m)
    ensures res.Success? && ResamplesToTarget(resize) && KeepsShape(blur) ==>
      |res.value.vertices| == targetHeight * targetWidth &&
      |res.value.colours| == targetHeight * targetWidth &&
      |res.value.faces| == 2 * (Cells(targetHeight) * Cells(targetWidth))
  {
    if decoded.None? {
      return Failure(ImageNotReadable);
    }
    var grid := Preprocessed(decoded.value, resize, blur, targetWidth, targetHeight, blurKsize);
    var h, w := grid.rows, grid.cols;
    var verts := Vertices(grid, invert, zScale);
    var faces := BuildFaces(h, w);
    var colours := Colours(grid, invert);
    FacesWellFormed(h, w);
    res := Success(Mesh(verts, faces, colours));
  }

  /** Twice the signed area of triangle (p, q, s) projected on the xy-plane:
      positive when the corners run counter-clockwise seen from +z. */
  function Cross(p: Vertex, q: Vertex, s: Vertex): real
  {
    (q.x - p.x) * (s.y - p.y) - (q.y - p.y) * (s.x - p.x)
  }

  /** Every triangle runs counter-clockwise seen from above (+z), so all
      faces turn the same side up and none is degenerate in the plane. */
  lemma FacesCounterClockwise(img: Gray, invert: bool, zScale: real, n: nat)
    requires n < |GridFaces(img.rows, img.cols)|
    ensures var t := GridFaces(img.rows, img.cols)[n];
      var vs := Vertices(img, invert, zScale);
      t.a < |vs| && t.b < |vs| && t.c < |vs| && Cross(vs[t.a], vs[t.b], vs[t.c]) > 0.0
  {
    var h, w := img.rows, img.cols;
    var r, c := FaceCell(h, w, n);
    var i0, i1, i2, i3 := r * w + c, r * w + c + 1, (r + 1) * w + c, (r + 1) * w + c + 1;
    var vs := Vertices(img, invert, zScale);
    CellCorners(img, invert, zScale, r, c);
    CellCounterClockwise(vs[i0], vs[i1], vs[i2], vs[i3]);
    var t := GridFaces(h, w)[n];
    if n % 2 == 0 {
      assert t == Tri(i0, i2, i1);
    } else {
      assert t == Tri(i1, i2, i3);
    }
  }

  /** The four corners of a cell: the right pair lies right of the left
      pair and the bottom pair below the top pair. */
  lemma CellCorners(img: Gray, invert: bool, zScale: real, r: nat, c: nat)
    requires r + 1 < img.rows && c + 1 < img.cols
    ensures var w, vs := img.cols, Vertices(img, invert, zScale);
      (r + 1) * w + c + 1 < |vs| &&
      var v0, v1, v2, v3 := vs[r * w + c], vs[r * w + c + 1], vs[(r + 1) * w + c], vs[(r + 1) * w + c + 1];
      v0.x == v2.x < v1.x == v3.x && v2.y == v3.y < v0.y == v1.y
  {
    VertexAt(img, invert, zScale, r, c);
    VertexAt(img, invert, zScale, r, c + 1);
    VertexAt(img, invert, zScale, r + 1, c);
    VertexAt(img, invert, zScale, r + 1, c + 1);
    FractionIncreasing(c, c + 1, img.cols);
    FractionIncreasing(r, r + 1, img.rows);
  }

  /** In a cell whose right side lies right of its left side and whose
      bottom lies below its top, both triangles (i0, i2, i1) and
      (i1, i2, i3) run counter-clockwise. */
  lemma CellCounterClockwise(v0: Vertex, v1: Vertex, v2: Vertex, v3: Vertex)
    requires v0.x == v2.x < v1.x == v3.x
    requires v2.y == v3.y < v0.y == v1.y
    ensures Cross(v0, v2, v1) > 0.0 && Cross(v1, v2, v3) > 0.0
  {
    var dx, dy := v1.x - v0.x, v0.y - v2.y;
    assert dx * dy > 0.0;
    assert Cross(v0, v2, v1) == dx * dy;
    assert Cross(v1, v2, v3) == dx * dy;
  }

  /** A 2 x 2 image gives four vertices at the corners of the square and a
      single quad, split into (0, 2, 1) and (1, 2, 3). */
  lemma QuadExample(img: Gray, invert: bool, zScale: real)
    requires img.rows == 2 && img.cols == 2
    ensures GridFaces(2, 2) == [Tri(0, 2, 1), Tri(1, 2, 3)]
    ensures var vs := Vertices(img, invert, zScale);
      |vs| == 4 &&
      vs[0].x == -0.5 && vs[0].y == 0.5 && vs[1].x == 0.5 && vs[1].y == 0.5 &&
      vs[2].x == -0.5 && vs[2].y == -0.5 && vs[3].x == 0.5 && vs[3].y == -0.5
  {
    CellFaces(2, 2, 0, 0);
    VertexAt(img, invert, zScale, 0, 1);
    VertexAt(img, invert, zScale, 1, 0);
    CornersReached(img, invert, zScale);
  }
}
