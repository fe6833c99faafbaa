/**
 * Normalisation and encoding of the distance field: the running maximum of
 * the field, the inverse-square falloff `255 * (1 - (f / maxDist)^2)` for
 * shape pixels, the conversion of that value to a clamped byte, and the RGBA
 * layout of the output buffer with a caller-chosen background alpha.
 *
 * The falloff is computed over `real`; `Math.pow(q, 2)` is `q * q`.
 */
module Encoder {
  import opened Raster

  /** Background alpha of the in-page processor: transparent. */
  const TransparentBackground: byte := 0
  /** Background alpha of the exported snippet's copy of the algorithm: opaque. */
  const OpaqueBackground: byte := 255

  /**
   * The running maximum over s, starting from 0 and scanning left to right.
   * It bounds every value, is never negative, and is 0 or one of the values.
   */
  function MaxOf(s: seq<real>): (m: real)
    ensures m >= 0.0
    ensures forall i :: 0 <= i < |s| ==> s[i] <= m
    ensures m == 0.0 || exists i :: 0 <= i < |s| && s[i] == m
  {
    if |s| == 0 then 0.0
    else
      var m := MaxOf(s[..|s| - 1]);
      assert forall i :: 0 <= i < |s| - 1 ==> s[..|s| - 1][i] == s[i];
      if s[|s| - 1] > m then s[|s| - 1] else m
  }

  /** The maximum is 0 exactly when no value is positive. */
  lemma MaxZeroIffNonePositive(s: seq<real>)
    ensures MaxOf(s) == 0.0 <==> forall i :: 0 <= i < |s| ==> s[i] <= 0.0
  {
  }

  /** Find the largest field value, starting from 0. */
  method MaxDistance(field: array<real>) returns (maxDist: real)
    ensures maxDist == MaxOf(field[..])
  {
    maxDist := 0.0;
    for i := 0 to field.Length
      invariant maxDist == MaxOf(field[..i])
    {
      assert field[..i + 1][..i] == field[..i];
      if field[i] > maxDist {
        maxDist := field[i];
      }
    }
    assert field[..field.Length] == field[..];
  }

  /** Rounding to the nearest integer, ties to the even one. */
  function RoundHalfEven(v: real): (r: int)
    ensures v - 0.5 <= r as real <= v + 0.5
    ensures (r as real - v == 0.5 || v - r as real == 0.5) ==> r % 2 == 0
  {
    var fl := v.Floor;
    var frac := v - fl as real;
    if frac < 0.5 then fl
    else if frac > 0.5 then fl + 1
    else if fl % 2 == 0 then fl
    else fl + 1
  }

  /**
   * The store of a finite number into a clamped byte array: clamp to
   * [0, 255], then round to nearest, ties to even.
   */
  function ToClampedByte(v: real): (b: byte)
    ensures v <= 0.0 ==> b == 0
    ensures v >= 255.0 ==> b == 255
    ensures 0.0 <= v <= 255.0 ==> v - 0.5 <= b as real <= v + 0.5
  {
    if v <= 0.0 then 0
    else if v >= 255.0 then 255
    else RoundHalfEven(v) as byte
  }

  /** The inverse-square falloff of a field value f against a non-zero maximum m. */
  function Falloff(f: real, m: real): (v: real)
    requires m != 0.0
    ensures 0.0 <= f <= m ==> 0.0 <= v <= 255.0
    ensures f == 0.0 ==> v == 255.0
  {
    var q := f / m;
    assert 0.0 <= f <= m ==> 0.0 <= q <= 1.0 && q * q <= q;
    255.0 * (1.0 - q * q)
  }

  /**
   * The intensity byte of a shape pixel as the code stores it. For
   * maxDist = 0 the falloff is 0 / 0, a NaN, which the clamped byte array
   * stores as 0.
   */
  function IntensityAsWritten(f: real, maxDist: real): (b: byte)
    ensures maxDist == 0.0 ==> b == 0
    ensures maxDist != 0.0 ==> b == ToClampedByte(Falloff(f, maxDist))
  {
    if maxDist == 0.0 then 0 else ToClampedByte(Falloff(f, maxDist))
  }

  /**
   * The intensity byte of a shape pixel, with the zero-maximum fallback 255.
   * A pixel whose field value is 0 (every edge pixel) is white whatever the
   * maximum; otherwise the byte is within half a unit of the falloff.
   */
  function Intensity(f: real, maxDist: real): (b: byte)
    ensures f == 0.0 ==> b == 255
    ensures maxDist == 0.0 ==> b == 255
    ensures 0.0 <= f <= maxDist && maxDist != 0.0 ==>
      Falloff(f, maxDist) - 0.5 <= b as real <= Falloff(f, maxDist) + 0.5
  {
    if maxDist == 0.0 then 255 else ToClampedByte(Falloff(f, maxDist))
  }

  /**
   * The as-written intensity makes an edge pixel black when the shape has
   * no interior (maximum 0) but white as soon as it has one.
   */
  lemma ZeroMaxBlackensEdges(m: real)
    requires m > 0.0
    ensures IntensityAsWritten(0.0, 0.0) == 0
    ensures IntensityAsWritten(0.0, m) == 255
    ensures Intensity(0.0, 0.0) == Intensity(0.0, m) == 255
  {
  }

  lemma RoundHalfEvenMonotone(u: real, v: real)
    requires u <= v
    ensures RoundHalfEven(u) <= RoundHalfEven(v)
  {
    var fu, fv := u.Floor, v.Floor;
    assert fu <= fv;
  }

  lemma ToClampedByteMonotone(u: real, v: real)
    requires u <= v
    ensures ToClampedByte(u) <= ToClampedByte(v)
  {
    if 0.0 < u && v < 255.0 {
      RoundHalfEvenMonotone(u, v);
    }
  }

  /** A larger field value never gives a brighter pixel. */
  lemma IntensityAntitone(f1: real, f2: real, maxDist: real)
    requires 0.0 <= f1 <= f2 <= maxDist
    ensures Intensity(f2, maxDist) <= Intensity(f1, maxDist)
  {
    if maxDist != 0.0 {
      var q1, q2 := f1 / maxDist, f2 / maxDist;
      assert 0.0 <= q1 <= q2;
      assert q1 * q1 <= q2 * q2;
      ToClampedByteMonotone(Falloff(f2, maxDist), Falloff(f1, maxDist));
    }
  }

  /** Channel c (0 red, 1 green, 2 blue, 3 alpha) of one encoded pixel. */
  function PixelChannel(isShape: bool, f: real, maxDist: real, backgroundAlpha: byte, c: nat): byte {
    if isShape then (if c == 3 then 255 else Intensity(f, maxDist))
    else (if c == 3 then backgroundAlpha else 255)
  }

  /** Byte k of the encoded buffer: channel k % 4 of pixel k / 4. */
  function EncodedByte(shape: seq<bool>, field: seq<real>, maxDist: real, backgroundAlpha: byte, k: nat): byte
    requires k / 4 < |shape| && k / 4 < |field|
  {
    PixelChannel(shape[k / 4], field[k / 4], maxDist, backgroundAlpha, k % 4)
  }

  /** The encoded RGBA buffer: four channels per pixel, row-major. */
  function EncodeSpec(d: Dims, shape: seq<bool>, field: seq<real>, maxDist: real, backgroundAlpha: byte)
    : (out: seq<byte>)
    requires |shape| == d.Size() && |field| == d.Size()
    ensures |out| == Channels * d.Size()
  {
    seq(Channels * d.Size(), k requires 0 <= k < Channels * d.Size() =>
      EncodedByte(shape, field, maxDist, backgroundAlpha, k))
  }

  /**
   * The four bytes of pixel i: grey intensity and alpha 255 for a shape
   * pixel, white with the background alpha otherwise.
   */
  lemma EncodedPixel(d: Dims, shape: seq<bool>, field: seq<real>, maxDist: real, backgroundAlpha: byte, i: nat)
    requires |shape| == d.Size() && |field| == d.Size() && i < d.Size()
    ensures var out := EncodeSpec(d, shape, field, maxDist, backgroundAlpha);
      var v := Intensity(field[i], maxDist);
      out[4 * i .. 4 * i + 4] == if shape[i] then [v, v, v, 255] else [255, 255, 255, backgroundAlpha]
  {
    var out := EncodeSpec(d, shape, field, maxDist, backgroundAlpha);
    var b := 4 * i;
    assert b / 4 == i && (b + 1) / 4 == i && (b + 2) / 4 == i && (b + 3) / 4 == i;
    assert b % 4 == 0 && (b + 1) % 4 == 1 && (b + 2) % 4 == 2 && (b + 3) % 4 == 3;
    assert out[b] == PixelChannel(shape[i], field[i], maxDist, backgroundAlpha, 0);
    assert out[b + 1] == PixelChannel(shape[i], field[i], maxDist, backgroundAlpha, 1);
    assert out[b + 2] == PixelChannel(shape[i], field[i], maxDist, backgroundAlpha, 2);
    assert out[b + 3] == PixelChannel(shape[i], field[i], maxDist, backgroundAlpha, 3);
    assert out[b .. b + 4] == [out[b], out[b + 1], out[b + 2], out[b + 3]];
  }

  /** Write the four channels of pixel idx; nothing else changes. */
  method StorePixel(out: array<byte>, idx: nat, isShape: bool, f: real, maxDist: real, backgroundAlpha: byte)
    requires 4 * idx + 4 <= out.Length
    modifies out
    ensures forall k :: 0 <= k < out.Length ==>
      out[k] == if k / 4 == idx then PixelChannel(isShape, f, maxDist, backgroundAlpha, k % 4) else old(out[k])
  {
    var outIdx := idx * 4;
    if isShape {
      var val := Intensity(f, maxDist);
      out[outIdx] := val;
      out[outIdx + 1] := val;
      out[outIdx + 2] := val;
      out[outIdx + 3] := 255;
    } else {
      out[outIdx] := 255;
      out[outIdx + 1] := 255;
      out[outIdx + 2] := 255;
      out[outIdx + 3] := backgroundAlpha;
    }
  }

  /**
   * Create the output buffer (all zero) and write every pixel's four
   * channels.
   */
  method Encode(d: Dims, shape: array<bool>, field: array<real>, maxDist: real, backgroundAlpha: byte)
    returns (out: array<byte>)
    requires shape.Length == d.Size() && field.Length == d.Size()
    ensures out[..] == EncodeSpec(d, shape[..], field[..], maxDist, backgroundAlpha)
  {
    out := new byte[Channels * d.Size()](_ => 0);
    ghost var s, f := shape[..], field[..];
    for y := 0 to d.height
      invariant out.Length == Channels * d.Size()
      invariant forall k :: 0 <= k < out.Length && k / 4 < y * d.width ==>
        out[k] == EncodedByte(s, f, maxDist, backgroundAlpha, k)
    {
      for x := 0 to d.width
        invariant forall k :: 0 <= k < out.Length && k / 4 < y * d.width + x ==>
          out[k] == EncodedByte(s, f, maxDist, backgroundAlpha, k)
      {
        var idx := d.Index(x, y);
        StorePixel(out, idx, shape[idx], field[idx], maxDist, backgroundAlpha);
      }
      assert y * d.width + d.width == (y + 1) * d.width;
    }
    assert d.height * d.width == d.Size();
    assert forall k :: 0 <= k < out.Length ==> out[..][k] == EncodeSpec(d, s, f, maxDist, backgroundAlpha)[k];
  }
}
