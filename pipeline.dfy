/**
 * `processLogoImage` end to end: the working size, then shape mask, edge
 * mask, 300 relaxation passes, the maximum, and the RGBA encoding. Drawing
 * the uploaded image onto a canvas of the working size is not modelled: the
 * drawn RGBA bytes are an input.
 */
module Pipeline {
  import opened Raster
  import opened WorkingSize
  import opened Classify
  import opened Diffusion
  import opened Encoder

  /** The field the solver leaves for a given RGBA buffer. */
  function FieldOf(d: Dims, data: seq<byte>): (f: seq<real>)
    requires |data| == Channels * d.Size()
    ensures |f| == d.Size()
  {
    var shape := ShapeMaskOf(d, data);
    Field(d, shape, EdgeMaskOf(d, shape), Passes)
  }

  /** The output buffer for an RGBA buffer already at its working size. */
  function ProcessSpec(d: Dims, data: seq<byte>, backgroundAlpha: byte): (out: seq<byte>)
    requires |data| == Channels * d.Size()
    ensures |out| == Channels * d.Size()
  {
    var field := FieldOf(d, data);
    EncodeSpec(d, ShapeMaskOf(d, data), field, MaxOf(field), backgroundAlpha)
  }

  /**
   * The preprocessing of one image: `pixels` stands for what the canvas
   * holds after the image is drawn at the working size.
   */
  method ProcessLogoImage(imageWidth: nat, imageHeight: nat, pixels: array<byte>, backgroundAlpha: byte)
    returns (d: Dims, out: array<byte>)
    requires imageWidth > 0 || imageHeight > 0
    requires pixels.Length == Channels * Resize(imageWidth, imageHeight).Size()
    ensures d == Resize(imageWidth, imageHeight)
    ensures out.Length == Channels * d.Size()
    ensures out[..] == ProcessSpec(d, pixels[..], backgroundAlpha)
  {
    d := Resize(imageWidth, imageHeight);
    var shapeMask := ComputeShapeMask(d, pixels);
    var edgeMask := ComputeEdgeMask(d, shapeMask);
    var distField := Solve(d, shapeMask, edgeMask);
    var maxDist := MaxDistance(distField);
    out := Encode(d, shapeMask, distField, maxDist, backgroundAlpha);
  }

  /**
   * After any positive number of passes the maximum is 0 exactly when every
   * pixel is pinned, that is when no shape pixel is off the edge.
   */
  lemma MaxZeroIffNoInterior(d: Dims, shape: seq<bool>, edge: seq<bool>, n: nat)
    requires |shape| == d.Size() && |edge| == d.Size() && n >= 1
    ensures MaxOf(Field(d, shape, edge, n)) == 0.0 <==>
      forall i :: 0 <= i < d.Size() ==> Pinned(shape, edge, i)
  {
    var f := Field(d, shape, edge, n);
    if exists i :: 0 <= i < d.Size() && !Pinned(shape, edge, i) {
      var i :| 0 <= i < d.Size() && !Pinned(shape, edge, i);
      InteriorPositive(d, shape, edge, n, i);
    }
  }

  /**
   * The layout of output pixel i: background pixels are white with the
   * background alpha; shape pixels are grey (equal red, green and blue)
   * and opaque; edge pixels are opaque white.
   */
  lemma OutputPixel(d: Dims, data: seq<byte>, backgroundAlpha: byte, i: nat)
    requires |data| == Channels * d.Size() && i < d.Size()
    ensures var out := ProcessSpec(d, data, backgroundAlpha);
      && (!IsShapePixel(data, i) ==> out[4 * i .. 4 * i + 4] == [255, 255, 255, backgroundAlpha])
      && (IsShapePixel(data, i) ==> out[4 * i] == out[4 * i + 1] == out[4 * i + 2] && out[4 * i + 3] == 255)
      && (EdgeMaskOf(d, ShapeMaskOf(d, data))[i] ==> out[4 * i .. 4 * i + 4] == [255, 255, 255, 255])
  {
    var shape := ShapeMaskOf(d, data);
    var edge := EdgeMaskOf(d, shape);
    var field := FieldOf(d, data);
    var out := EncodeSpec(d, shape, field, MaxOf(field), backgroundAlpha);
    assert ProcessSpec(d, data, backgroundAlpha) == out;
    EncodedPixel(d, shape, field, MaxOf(field), backgroundAlpha, i);
    assert shape[i] == IsShapePixel(data, i);
    var px := out[4 * i .. 4 * i + 4];
    assert out[4 * i] == px[0] && out[4 * i + 1] == px[1] && out[4 * i + 2] == px[2] && out[4 * i + 3] == px[3];
    if edge[i] {
      assert Pinned(shape, edge, i);
      assert field[i] == 0.0;
    }
  }

  /**
   * Between two shape pixels, the one with the larger field value (further
   * from the edge) is never brighter.
   */
  lemma DeeperIsDarker(d: Dims, data: seq<byte>, backgroundAlpha: byte, i: nat, j: nat)
    requires |data| == Channels * d.Size() && i < d.Size() && j < d.Size()
    requires IsShapePixel(data, i) && IsShapePixel(data, j)
    requires FieldOf(d, data)[i] <= FieldOf(d, data)[j]
    ensures var out := ProcessSpec(d, data, backgroundAlpha); out[4 * j] <= out[4 * i]
  {
    var shape := ShapeMaskOf(d, data);
    var field := FieldOf(d, data);
    var m := MaxOf(field);
    assert ProcessSpec(d, data, backgroundAlpha) == EncodeSpec(d, shape, field, m, backgroundAlpha);
    assert shape[i] && shape[j];
    EncodedPixel(d, shape, field, m, backgroundAlpha, i);
    EncodedPixel(d, shape, field, m, backgroundAlpha, j);
    var out := EncodeSpec(d, shape, field, m, backgroundAlpha);
    assert out[4 * i] == out[4 * i .. 4 * i + 4][0] == Intensity(field[i], m);
    assert out[4 * j] == out[4 * j .. 4 * j + 4][0] == Intensity(field[j], m);
    IntensityAntitone(field[i], field[j], m);
  }

  /**
   * The in-page processor (transparent background) and the exported
   * snippet's copy (opaque background) produce the same bytes except the
   * alpha channel of background pixels.
   */
  lemma CallSitesDifferOnlyInBackgroundAlpha(d: Dims, data: seq<byte>, k: nat)
    requires |data| == Channels * d.Size() && k < Channels * d.Size()
    ensures ProcessSpec(d, data, TransparentBackground)[k] != ProcessSpec(d, data, OpaqueBackground)[k] <==>
      k % 4 == 3 && !IsShapePixel(data, k / 4)
  {
    var shape := ShapeMaskOf(d, data);
    var field := FieldOf(d, data);
    assert ProcessSpec(d, data, TransparentBackground) == EncodeSpec(d, shape, field, MaxOf(field), TransparentBackground);
    assert ProcessSpec(d, data, OpaqueBackground) == EncodeSpec(d, shape, field, MaxOf(field), OpaqueBackground);
    assert shape[k / 4] == IsShapePixel(data, k / 4);
  }

  /** An image with no shape pixel encodes to background everywhere. */
  lemma AllBackground(d: Dims, data: seq<byte>, backgroundAlpha: byte)
    requires |data| == Channels * d.Size()
    requires forall i :: 0 <= i < d.Size() ==> !IsShapePixel(data, i)
    ensures var out := ProcessSpec(d, data, backgroundAlpha);
      forall k :: 0 <= k < |out| ==> out[k] == if k % 4 == 3 then backgroundAlpha else 255
  {
    var out := ProcessSpec(d, data, backgroundAlpha);
    forall k | 0 <= k < |out|
      ensures out[k] == if k % 4 == 3 then backgroundAlpha else 255
    {
      assert !ShapeMaskOf(d, data)[k / 4];
    }
  }

  /**
   * A shape with no interior (every shape pixel is an edge) has maximum 0,
   * and every one of its pixels is encoded opaque white.
   */
  lemma NoInterior(d: Dims, data: seq<byte>, backgroundAlpha: byte)
    requires |data| == Channels * d.Size()
    requires forall i :: 0 <= i < d.Size() && IsShapePixel(data, i) ==>
      EdgeMaskOf(d, ShapeMaskOf(d, data))[i]
    ensures MaxOf(FieldOf(d, data)) == 0.0
    ensures var out := ProcessSpec(d, data, backgroundAlpha);
      forall i :: 0 <= i < d.Size() && IsShapePixel(data, i) ==> out[4 * i .. 4 * i + 4] == [255, 255, 255, 255]
  {
    var shape := ShapeMaskOf(d, data);
    MaxZeroIffNoInterior(d, shape, EdgeMaskOf(d, shape), Passes);
    forall i | 0 <= i < d.Size() && IsShapePixel(data, i)
      ensures ProcessSpec(d, data, backgroundAlpha)[4 * i .. 4 * i + 4] == [255, 255, 255, 255]
    {
      OutputPixel(d, data, backgroundAlpha, i);
    }
  }

  /** A 3 x 3 opaque white image with one black pixel in the middle. */
  function CentreDot(): (data: seq<byte>)
    ensures |data| == 36
  {
    seq(36, k => if 16 <= k < 19 then 0 else 255)
  }

  /**
   * The lone centre pixel is shape and, all its neighbours being background,
   * an edge: the maximum is 0 and it is encoded opaque white; all other
   * pixels are background.
   */
  lemma CentreDotExample(backgroundAlpha: byte)
    ensures var d := Dims(3, 3);
      var out := ProcessSpec(d, CentreDot(), backgroundAlpha);
      && MaxOf(FieldOf(d, CentreDot())) == 0.0
      && out[16..20] == [255, 255, 255, 255]
      && forall i :: 0 <= i < 9 && i != 4 ==> out[4 * i .. 4 * i + 4] == [255, 255, 255, backgroundAlpha]
  {
    var d, data := Dims(3, 3), CentreDot();
    var shape := ShapeMaskOf(d, data);
    assert forall i :: 0 <= i < 9 ==> (IsShapePixel(data, i) <==> i == 4);
    assert !ShapeAt(d, shape, 0, 0);
    assert IsEdgePixel(d, shape, 4);
    NoInterior(d, data, backgroundAlpha);
    forall i | 0 <= i < 9 && i != 4
      ensures ProcessSpec(d, data, backgroundAlpha)[4 * i .. 4 * i + 4] == [255, 255, 255, backgroundAlpha]
    {
      OutputPixel(d, data, backgroundAlpha, i);
    }
  }
}
