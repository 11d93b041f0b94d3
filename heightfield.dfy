/** The heightfield: each grey level is normalised to [0, 1], optionally
    inverted, and scaled by `zScale`. Arithmetic is exact (`real`) where the
    program works in float32. */
module HeightField {
  import opened Raster

  /** Normalised depth of one grey level: `v / 255`, or `1 - v / 255` when
      inverting. Scaled back by 255 it is the grey level itself, or its
      complement `255 - v`. */
  function Depth(v: Byte, invert: bool): (d: real)
    ensures 0.0 <= d <= 1.0
    ensures d * 255.0 == (if invert then 255 - v else v) as real
  {
    var norm := v as real / 255.0;
    if invert then 1.0 - norm else norm
  }

  /** Height of one grey level: its depth times `zScale`. It lies between 0
      and `zScale` whatever the sign of `zScale`. */
  function Height(v: Byte, invert: bool, zScale: real): (z: real)
    ensures 0.0 <= zScale ==> 0.0 <= z <= zScale
    ensures zScale <= 0.0 ==> zScale <= z <= 0.0
  {
    Depth(v, invert) * zScale
  }

  /** The heightfield of a whole image, in the image's row-major order: one
      height per pixel, each between 0 and `zScale`. */
  function Heights(img: Gray, invert: bool, zScale: real): (z: seq<real>)
    ensures |z| == img.rows * img.cols
    ensures 0.0 <= zScale ==> forall k :: 0 <= k < |z| ==> 0.0 <= z[k] <= zScale
  {
    seq(|img.px|, k requires 0 <= k < |img.px| => Height(img.px[k], invert, zScale))
  }

  /** The photographic negative of an image: every grey level `v` becomes
      `255 - v`. */
  function Negative(img: Gray): (neg: Gray)
    ensures neg.rows == img.rows && neg.cols == img.cols
    ensures forall k :: 0 <= k < |img.px| ==> neg.px[k] as int + img.px[k] as int == 255
  {
    Image(img.rows, img.cols, seq(|img.px|, k requires 0 <= k < |img.px| => 255 - img.px[k]))
  }

  /** Inverted and plain heights of the same cell add up to `zScale`. */
  lemma InvertComplements(img: Gray, zScale: real)
    ensures forall k :: 0 <= k < |img.px| ==>
      Heights(img, true, zScale)[k] + Heights(img, false, zScale)[k] == zScale
  {
    forall k | 0 <= k < |img.px|
      ensures Heights(img, true, zScale)[k] + Heights(img, false, zScale)[k] == zScale
    {
      var v := img.px[k];
      calc {
        Height(v, true, zScale) + Height(v, false, zScale);
        (1.0 - v as real / 255.0) * zScale + (v as real / 255.0) * zScale;
        zScale;
      }
    }
  }

  /** Inverting is undone by inverting again: the inverted heightfield of the
      negative image is the plain heightfield of the image, and the plain
      heightfield of the negative is the inverted one of the image. */
  lemma InvertTwiceRestores(img: Gray, zScale: real)
    ensures Heights(Negative(img), true, zScale) == Heights(img, false, zScale)
    ensures Heights(Negative(img), false, zScale) == Heights(img, true, zScale)
  {
    var neg := Negative(img);
    forall k | 0 <= k < |img.px|
      ensures Height(neg.px[k], true, zScale) == Height(img.px[k], false, zScale)
      ensures Height(neg.px[k], false, zScale) == Height(img.px[k], true, zScale)
    {
      assert Depth(neg.px[k], true) == Depth(img.px[k], false);
      assert Depth(neg.px[k], false) == Depth(img.px[k], true);
    }
  }
}
