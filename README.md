# Heightmap-to-mesh synthesis, modelled in Dafny

This project models `img_to_heightmap_mesh` in `src/image_to_gltf.py`. That function turns a grey-level
image into a grid mesh whose heights come from pixel intensity. It follows the stages of the program:

- **Preprocess** (`preprocess.dfy`). The decoded image is resampled to the target size. It is then
  optionally Gaussian-blurred with kernel size `k | 1`, and only when `k > 0`. `BitOr` defines the bitwise
  OR on natural numbers; `EffectiveKsize` gives the kernel size, or `None` when blurring is skipped.
  Decoding, resampling and the blur itself belong to OpenCV. They come in as parameters: an
  `Option<Gray>` for the decoded image, and two functions for resampling and blurring.
  `ResamplesToTarget` and `KeepsShape` state the size promises of those library calls. When they
  hold, the processed grid has exactly the target size.
- **HeightField** (`heightfield.dfy`). Each grey level `v` becomes the depth `v/255`, or `1 - v/255` when
  inverting. The height is that depth times `zScale`.
- **Lattice** (`lattice.dfy`). `Linspace` models `numpy.linspace`. Vertex `k` sits at column `k % w` and
  row `k / w`. Its x comes from `linspace(-0.5, 0.5, w)`, its y from the negated
  `linspace(-0.5, 0.5, h)`, and its z from the pixel's height.
- **Triangulation** (`triangulation.dfy`). `BuildFaces` is the two nested loops of the program. Each
  cell appends `(i0, i2, i1)` and then `(i1, i2, i3)`. The method is proved equal to the row-major
  specification `GridFaces` and to the closed form `FaceAt`.
- **VertexColours** (`colours.dfy`). Each vertex gets the grey `trunc(depth * 255)` in r, g and b, with
  alpha 255.
- **HeightmapMesh** (`mesh.dfy`). `ImgToHeightmapMesh` chains the stages. It fails with
  `ImageNotReadable` when the image could not be read, which the program reports as `FileNotFoundError`.
  It returns the vertex, face and colour arrays that are handed to the mesh library.
- **Raster** (`raster.dfy`). Holds grey levels, images stored flat in row-major order (as `ravel()`
  yields them), the Option and Result types, and the row-major index arithmetic.

Float32 arithmetic is idealised as exact `real` arithmetic. The lattice size is taken from the shape of
the processed grid, as the program takes it from `z.shape`.

Three behaviours of the code are worth noting. The model follows the code in each:

- Vertex colours come from the depth *after* the optional inversion, so with `invert` set a vertex gets
  `255 - v`, not the raw intensity (`VertexColours.VertexColour`). The comment at
  src/image_to_gltf.py:59 calls these simple vertex colours from grayscale. The `--invert` help text at
  src/image_to_gltf.py:74 describes inverting the depth mapping only.
- The footprint is exactly [-0.5, 0.5] on an axis only when that axis has at least two points.
  `linspace` with a single point returns its start, so a one-pixel-wide image puts every vertex at
  x = -0.5 (`Lattice.SingleColumnOnLeftEdge`). A one-pixel-high image puts every vertex at y = 0.5
  (`Lattice.SingleRowOnTopEdge`).
- The code has no explicit check for target sizes below 1. No invalid-dimension error exists in the
  code, so none is modelled.

## Model

| member | source | states |
|---|---|---|
| `Preprocess.EffectiveKsize` | src/image_to_gltf.py:25-26 | blurring is skipped exactly when `k <= 0`; otherwise the kernel size is odd, lies in `[k, k + 1]`, and equals `k` when `k` is odd |
| `Preprocess.OrOne` | src/image_to_gltf.py:26 | the bitwise OR of `k` with 1 is `k` for odd `k` and `k + 1` for even `k` |
| `Preprocess.Preprocessed` | src/image_to_gltf.py:22-26 | resampling comes first; a kernel size `k <= 0` leaves the resampled grid unsmoothed; `k > 0` smooths it once, with `k` when odd and `k + 1` when even; and when resampling yields the requested size and smoothing keeps the size, the grid is `height` x `width` |
| `HeightField.Depth` | src/image_to_gltf.py:28-31 | depth lies in [0, 1], and scaled back by 255 it is the grey level `v`, or `255 - v` when inverting |
| `HeightField.Height` | src/image_to_gltf.py:33-34 | height lies in [0, zScale] for `zScale >= 0` and in [zScale, 0] for a negative `zScale` |
| `HeightField.Heights` | src/image_to_gltf.py:29-34 | one height per pixel, each within [0, zScale] when `zScale >= 0` |
| `HeightField.InvertComplements` | src/image_to_gltf.py:30-34 | inverted and plain heights of the same cell sum to `zScale` |
| `HeightField.InvertTwiceRestores` | src/image_to_gltf.py:29-34 | inverting the heights of the negative image gives back the plain heights of the image, and the reverse |
| `Lattice.Linspace` | src/image_to_gltf.py:38-39 | `n` values, starting at `lo`, ending at `hi` when `n >= 2`, all within [lo, hi], strictly increasing |
| `Lattice.Vertices` | src/image_to_gltf.py:36-43 | there are `w * h` vertices |
| `Lattice.VertexAt` | src/image_to_gltf.py:38-43 | vertex `r * w + c` is at x = -0.5 + c/(w-1), y = 0.5 - r/(h-1), with the height of pixel (r, c) |
| `Lattice.Footprint` | src/image_to_gltf.py:38-43 | every vertex has x, y in [-0.5, 0.5], and z in [0, zScale] for `zScale >= 0` |
| `Lattice.CornersReached` | src/image_to_gltf.py:38-43 | with `w, h >= 2`, the first vertex is (-0.5, 0.5) and the last is (0.5, -0.5), so both ends of both axes are reached |
| `Lattice.SingleColumnOnLeftEdge` | src/image_to_gltf.py:38 | a one-pixel-wide image puts every vertex at x = -0.5 |
| `Lattice.SingleRowOnTopEdge` | src/image_to_gltf.py:39-43 | a one-pixel-high image puts every vertex at y = 0.5 |
| `Lattice.PositionsDistinct` | src/image_to_gltf.py:38-43 | no two vertices share an (x, y) position |
| `Triangulation.BuildFaces` | src/image_to_gltf.py:45-55 | the nested loops produce exactly `GridFaces(h, w)`, of length `2(h-1)(w-1)` (0 when `h < 2` or `w < 2`), and face `n` equals the closed form `FaceAt(w, n)` |
| `Triangulation.GridFaces` | src/image_to_gltf.py:46-55 | the face list has `2 * Cells(h) * Cells(w)` entries, and is empty exactly when `h < 2` or `w < 2` |
| `Triangulation.CellFaces` | src/image_to_gltf.py:47-54 | cell (r, c) emits faces `2(r(w-1)+c)` = `[i0, i2, i1]` and the next = `[i1, i2, i3]`, in row-major cell order |
| `Triangulation.FaceCell` | src/image_to_gltf.py:47-54 | face `n` belongs to a cell (r, c) of the grid: it is `[i0, i2, i1]` when `n` is even and `[i1, i2, i3]` when `n` is odd |
| `Triangulation.FaceAtIsGridFace` | src/image_to_gltf.py:47-54 | every face equals its closed form `FaceAt(w, n)` |
| `Triangulation.CornersOrdered` | src/image_to_gltf.py:49-52 | a cell's corners satisfy `i0 < i1 < i2 < i3 < h * w` |
| `Triangulation.FacesWellFormed` | src/image_to_gltf.py:49-54 | every face index lies in [0, w*h), and the three indices of a face are pairwise distinct |
| `Triangulation.SharedDiagonal` | src/image_to_gltf.py:49-54 | a cell's two faces share the edge (i1, i2), and that diagonal runs top-right to bottom-left in every cell |
| `Triangulation.EveryVertexUsed` | src/image_to_gltf.py:45-55 | every vertex is a corner of some face iff `h >= 2` and `w >= 2` |
| `VertexColours.ToByte` | src/image_to_gltf.py:60 | converting to uint8 truncates a value in [0, 256) to the integer below it |
| `VertexColours.VertexColour` | src/image_to_gltf.py:60-61 | the colour is (d, d, d, 255) with d = `v`, or `255 - v` when inverting (post-inversion depth) |
| `VertexColours.Colours` | src/image_to_gltf.py:60-61 | one colour per vertex in vertex order, each grey (r = g = b), opaque, carrying the post-inversion intensity |
| `VertexColours.ColourEncodesHeight` | src/image_to_gltf.py:29-60 | a vertex's grey level, over 255 and times `zScale`, is that vertex's height |
| `HeightmapMesh.ImgToHeightmapMesh` | src/image_to_gltf.py:16-61 | fails exactly when the image is unreadable; otherwise returns the lattice vertices, the grid faces and the colours of the processed grid, with `w*h` vertices and colours, `2(h-1)(w-1)` faces, and every face index naming a vertex; when resampling yields the requested size and smoothing keeps the size, there are exactly `targetWidth * targetHeight` vertices and colours and `2 * Cells(targetHeight) * Cells(targetWidth)` faces |
| `HeightmapMesh.FacesCounterClockwise` | src/image_to_gltf.py:36-54 | every face runs counter-clockwise seen from +z (positive signed area), so all faces point up and none is degenerate |
| `HeightmapMesh.CellCounterClockwise` | src/image_to_gltf.py:53-54 | in a cell whose right side lies right of its left side and whose bottom lies below its top, both emitted triangles run counter-clockwise |
| `HeightmapMesh.CellCorners` | src/image_to_gltf.py:38-43 | a cell's right corners lie right of its left corners, and its bottom corners lie below its top corners |
| `HeightmapMesh.QuadExample` | src/image_to_gltf.py:45-54 | a 2 x 2 image gives four corner vertices and the faces `(0, 2, 1)`, `(1, 2, 3)` |

## Left out

- Image decoding (`cv2.imread`), area resampling (`cv2.resize` with `INTER_AREA`) and the Gaussian
  convolution (`cv2.GaussianBlur`) are foreign, floating-point library code. They are parameters of
  `ImgToHeightmapMesh`. Only their order, the skip rule and the kernel size are modelled.
- The target sizes are natural numbers. The library rejects non-positive sizes, and that rejection is
  not modelled.
- `trimesh.Trimesh(..., process=True)` and the binary glTF export are library code. Vertex merging
  during processing could change the vertex and face arrays. The model describes the arrays before that
  call. In exact arithmetic no two vertices share a position (`Lattice.PositionsDistinct`), so merging
  bit-identical vertices would find nothing to merge. Float32 rounding is not covered by that argument.
- Creating the output directory, argument parsing and printing in `main` are I/O.
- Float32 rounding of `/255`, of `linspace` and of the product before the uint8 truncation is idealised
  as exact `real` arithmetic.
- `VertexColours.VertexColour`: states the idealised result `d = v` (or `255 - v`). In float32,
  `(v/255)*255` can fall just below `v`, and truncation could then give `v - 1`. This is not modelled.
- `Lattice.Linspace`: uses exact `lo + (hi - lo) * i/(n-1)`. numpy's float32 computation is not
  modelled, and neither is numpy forcing the last element to `hi`, since in exact arithmetic they agree.
- blender/auto_texture_and_export.py is not part of this model. It manipulates a host application's
  scene and materials.
