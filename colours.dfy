/** Vertex colours: each vertex is painted grey with the 8-bit value of its
    depth, fully opaque. The depth used is the one after the optional
    inversion, so an inverted heightfield is painted with inverted greys. */
module VertexColours {
  import opened Raster
  import opened HeightField

  /** An 8-bit RGBA colour. */
  datatype Rgba = Rgba(r: Byte, g: Byte, b: Byte, a: Byte)

  /** Conversion of a non-negative float to uint8: truncation toward zero,
      which for a non-negative value is the floor. */
  function ToByte(x: real): (b: Byte)
    requires 0.0 <= x < 256.0
    ensures b as real <= x < b as real + 1.0
  {
    x.Floor
  }

  /** Colour of the vertex over a pixel of grey level `v`: the depth scaled
      back to [0, 255] in all three colour channels, alpha 255. The grey it
      carries is `v` itself, or `255 - v` when inverting. */
  function VertexColour(v: Byte, invert: bool): (col: Rgba)
    ensures col.r == col.g == col.b
    ensures col.r == if invert then 255 - v else v
    ensures col.a == 255
  {
    var d := ToByte(Depth(v, invert) * 255.0);
    Rgba(d, d, d, 255)
  }

  /** One colour per pixel, in the image's row-major order, which is the
      vertex order. */
  function Colours(img: Gray, invert: bool): (cs: seq<Rgba>)
    ensures |cs| == img.rows * img.cols
    ensures forall k :: 0 <= k < |cs| ==>
      cs[k].r == cs[k].g == cs[k].b && cs[k].a == 255 &&
      cs[k].r as int == if invert then 255 - img.px[k] else img.px[k]
  {
    seq(|img.px|, k requires 0 <= k < |img.px| => VertexColour(img.px[k], invert))
  }

  /** The colour of a vertex encodes its height: grey level over 255, times
      `zScale`, is the height of the same pixel, with or without
      inversion. */
  lemma ColourEncodesHeight(img: Gray, invert: bool, zScale: real)
    ensures forall k :: 0 <= k < |img.px| ==>
      Colours(img, invert)[k].r as real / 255.0 * zScale == Heights(img, invert, zScale)[k]
  {
    var cs := Colours(img, invert);
    forall k | 0 <= k < |img.px|
      ensures cs[k].r as real / 255.0 * zScale == Heights(img, invert, zScale)[k]
    {
      var d := Depth(img.px[k], invert);
      assert cs[k].r as real == d * 255.0;
      assert cs[k].r as real / 255.0 == d;
    }
  }
}
