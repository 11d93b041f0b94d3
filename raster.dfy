/** Values shared by every stage of the heightmap pipeline: grey levels,
    single-channel images laid out row-major, and the Option/Result wrappers
    used for the stages that may fail or be skipped. */
module Raster {

  /** An 8-bit grey level, one element of a uint8 image. */
  type Byte = x: int | 0 <= x < 256

  /** A single-channel image of `rows` x `cols` grey levels. The pixels are
      held flat in row-major order, as a 2-D array lies in memory and as
      `ravel()` returns them: pixel (r, c) is `px[r * cols + c]`. */
  datatype Image = Image(rows: nat, cols: nat, px: seq<Byte>)

  /** An image whose pixel buffer has exactly `rows * cols` entries. */
  type Gray = im: Image | |im.px| == im.rows * im.cols witness Image(0, 0, [])

  datatype Option<T> = None | Some(value: T)

  datatype Result<T, E> = Success(value: T) | Failure(error: E)

  /** Row-major flattening is a bijection between the cells of a
      `rows` x `cols` grid and `[0, rows * cols)`: cell (r, c) lands at
      `r * cols + c`, and division and remainder by `cols` take it back. */
  lemma FlatIndex(rows: nat, cols: nat, r: nat, c: nat)
    requires r < rows && c < cols
    ensures r * cols + c < rows * cols
    ensures (r * cols + c) / cols == r && (r * cols + c) % cols == c
  {
    var k := r * cols + c;
    assert k < (r + 1) * cols <= rows * cols by {
      assert (r + 1) * cols == r * cols + cols;
      MulMono(r + 1, rows, cols);
    }
    var q, m := k / cols, k % cols;
    assert k == q * cols + m && 0 <= m < cols;
    if q < r {
      MulMono(q + 1, r, cols);
      assert false;
    } else if q > r {
      MulMono(r + 1, q, cols);
      assert false;
    }
  }

  /** Every flat index below `rows * cols` names a cell of the grid: its row
      `k / cols` is below `rows` and its column `k % cols` below `cols`. */
  lemma UnflatIndex(rows: nat, cols: nat, k: nat)
    requires k < rows * cols
    ensures 0 < cols && k / cols < rows && k % cols < cols
    ensures k == (k / cols) * cols + k % cols
  {
    if cols == 0 {
      assert false;
    }
    if k / cols >= rows {
      MulMono(rows, k / cols, cols);
      assert false;
    }
  }

  /** The cell (r, c) a flat index below `rows * cols` stands for. */
  lemma CellOf(rows: nat, cols: nat, k: nat) returns (r: nat, c: nat)
    requires k < rows * cols
    ensures r < rows && c < cols && k == r * cols + c
  {
    UnflatIndex(rows, cols, k);
    r, c := k / cols, k % cols;
  }

  /** Multiplication by a natural number is monotone. */
  lemma MulMono(a: nat, b: nat, n: nat)
    requires a <= b
    ensures a * n <= b * n
  {
    assert b * n == a * n + (b - a) * n;
  }
}
