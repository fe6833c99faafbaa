/**
 * Row-major RGBA rasters: the byte type of a colour channel, the dimensions
 * of a pixel grid, and the correspondence between a pixel's (x, y)
 * coordinates and its flat index `y * width + x`.
 */
module Raster {

  /** One 8-bit colour channel, as stored in an `ImageData` buffer. */
  newtype byte = x: int | 0 <= x < 256

  /** Number of channels per pixel: red, green, blue, alpha. */
  const Channels: nat := 4

  /** Width and height of a row-major pixel grid. */
  datatype Dims = Dims(width: nat, height: nat) {

    /** Number of pixels in the grid. */
    function Size(): nat {
      width * height
    }

    predicate InBounds(x: int, y: int) {
      0 <= x < width && 0 <= y < height
    }

    /** Flat index of the pixel at (x, y). */
    function Index(x: int, y: int): (i: nat)
      requires InBounds(x, y)
      ensures i < Size()
    {
      IndexBelowSize(width, height, x, y);
      y * width + x
    }

    /** Column of the pixel with flat index i. */
    function Col(i: nat): (x: nat)
      requires i < Size()
      ensures x < width
    {
      i % width
    }

    /** Row of the pixel with flat index i. */
    function Row(i: nat): (y: nat)
      requires i < Size()
      ensures y < height
    {
      RowBelowHeight(width, height, i);
      i / width
    }
  }

  /** Multiplication by a natural number is monotone. */
  lemma {:induction false} MulMono(a: int, b: int, c: nat)
    requires a <= b
    ensures a * c <= b * c
  {
    if c > 0 {
      MulMono(a, b, c - 1);
      assert a * c == a * (c - 1) + a;
      assert b * c == b * (c - 1) + b;
    }
  }

  lemma IndexBelowSize(w: nat, h: nat, x: nat, y: nat)
    requires x < w && y < h
    ensures y * w + x < w * h
  {
    MulMono(y + 1, h, w);
    assert (y + 1) * w == y * w + w;
  }

  lemma RowBelowHeight(w: nat, h: nat, i: nat)
    requires i < w * h
    ensures w > 0 && i / w < h
  {
    var q, r := i / w, i % w;
    assert q * w + r == i;
    if q >= h {
      MulMono(h, q, w);
    }
  }

  /** The flat index of (x, y) gives back x as its column and y as its row. */
  lemma IndexCoords(d: Dims, x: nat, y: nat)
    requires d.InBounds(x, y)
    ensures d.Col(d.Index(x, y)) == x && d.Row(d.Index(x, y)) == y
  {
    var w := d.width;
    var i := y * w + x;
    var q, r := i / w, i % w;
    assert q * w + r == i;
    if q > y {
      assert (y + 1) * w == y * w + w;
      MulMono(y + 1, q, w);
    } else if q < y {
      assert (q + 1) * w == q * w + w;
      MulMono(q + 1, y, w);
    }
  }

  /** Every flat index is the index of its own column and row. */
  lemma CoordsIndex(d: Dims, i: nat)
    requires i < d.Size()
    ensures d.InBounds(d.Col(i), d.Row(i)) && d.Index(d.Col(i), d.Row(i)) == i
  {
    var w := d.width;
    assert (i / w) * w + i % w == i;
  }
}
