/** Preprocessing of the decoded image: resampling to the target resolution
    and the optional Gaussian smoothing, whose kernel size is forced odd with
    a bitwise OR. The resampling and the convolution are OpenCV's and are
    taken as parameters; what is modelled is when smoothing happens and with
    which kernel size. */
module Preprocess {
  import opened Raster

  /** Bitwise OR of two non-negative integers, one bit at a time from the
      least significant end. */
  function BitOr(a: nat, b: nat): nat
    decreases a + b
  {
    if a == 0 then b
    else if b == 0 then a
    else 2 * BitOr(a / 2, b / 2) + (if a % 2 == 1 || b % 2 == 1 then 1 else 0)
  }

  /** OR-ing in the lowest bit leaves an odd number unchanged and raises an
      even one to the next odd number. */
  lemma OrOne(k: nat)
    ensures BitOr(k, 1) == if k % 2 == 1 then k else k + 1
  {
    if k != 0 {
      assert BitOr(k / 2, 0) == k / 2;
    }
  }

  /** The kernel size the blur is run with, or None when blurring is
      skipped: skipped exactly when the requested size is not positive,
      otherwise `k | 1`, the smallest odd number not below `k`. */
  function EffectiveKsize(k: int): (e: Option<nat>)
    ensures e.None? <==> k <= 0
    ensures e.Some? ==> e.value % 2 == 1 && k <= e.value <= k + 1
    ensures e.Some? && k % 2 == 1 ==> e.value == k
  {
    if k <= 0 then None
    else
      OrOne(k);
      Some(BitOr(k, 1))
  }

  /** `resize` produces a grid of exactly the requested size, `width`
      columns by `height` rows, as area resampling does. */
  ghost predicate ResamplesToTarget(resize: (Gray, nat, nat) -> Gray)
  {
    forall g: Gray, width: nat, height: nat ::
      resize(g, width, height).rows == height && resize(g, width, height).cols == width
  }

  /** `blur` keeps the size of the grid it smooths, as a convolution does. */
  ghost predicate KeepsShape(blur: (Gray, nat) -> Gray)
  {
    forall g: Gray, ksize: nat :: blur(g, ksize).rows == g.rows && blur(g, ksize).cols == g.cols
  }

  /** The grid the heightfield is built from: the decoded image resampled to
      `width` x `height`, then smoothed when the kernel size asks for it. A
      non-positive size leaves the resampled grid as it is; a positive size
      smooths it once, with the requested size when it is odd and the next
      odd size when it is even. When resampling and smoothing behave as the
      library's do, the grid is `height` rows by `width` columns. */
  function Preprocessed(img: Gray, resize: (Gray, nat, nat) -> Gray, blur: (Gray, nat) -> Gray,
                        width: nat, height: nat, blurKsize: int): (g: Gray)
    ensures blurKsize <= 0 ==> g == resize(img, width, height)
    ensures blurKsize > 0 ==>
      g == blur(resize(img, width, height), if blurKsize % 2 == 1 then blurKsize else blurKsize + 1)
    ensures ResamplesToTarget(resize) && KeepsShape(blur) ==> g.rows == height && g.cols == width
  {
    var resized := resize(img, width, height);
    match EffectiveKsize(blurKsize)
    case None => resized
    case Some(ksize) => blur(resized, ksize)
  }
}
