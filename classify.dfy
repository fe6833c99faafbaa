/**
 * Shape classification and edge detection. A pixel is shape unless it is
 * exactly opaque white or fully transparent; a shape pixel is an edge when
 * one of its eight neighbours is off the grid or is not shape.
 */
module Classify {
  import opened Raster

  /** The exact-equality background test: opaque white, or any colour at alpha 0. */
  predicate IsBackground(r: byte, g: byte, b: byte, a: byte) {
    (r == 255 && g == 255 && b == 255 && a == 255) || a == 0
  }

  /** Whether pixel i of an RGBA buffer is part of the logo. */
  predicate IsShapePixel(data: seq<byte>, i: nat)
    requires 4 * i + 3 < |data|
  {
    !IsBackground(data[4 * i], data[4 * i + 1], data[4 * i + 2], data[4 * i + 3])
  }

  /**
   * The test is exact: near-white or nearly opaque white pixels are shape,
   * and a fully transparent pixel is background whatever its colour.
   */
  lemma BackgroundExamples()
    ensures IsBackground(255, 255, 255, 255) && IsBackground(0, 0, 0, 0) && IsBackground(255, 0, 0, 0)
    ensures !IsBackground(254, 255, 255, 255) && !IsBackground(255, 255, 255, 254)
    ensures !IsBackground(0, 0, 0, 255) && !IsBackground(255, 255, 255, 1)
  {
  }

  /** The shape mask of an RGBA buffer, one entry per pixel. */
  function ShapeMaskOf(d: Dims, data: seq<byte>): (mask: seq<bool>)
    requires |data| == Channels * d.Size()
    ensures |mask| == d.Size()
  {
    seq(d.Size(), i requires 0 <= i < d.Size() => IsShapePixel(data, i))
  }

  /** Shape at (x, y); every position off the grid counts as not shape. */
  predicate ShapeAt(d: Dims, shape: seq<bool>, x: int, y: int)
    requires |shape| == d.Size()
  {
    d.InBounds(x, y) && shape[d.Index(x, y)]
  }

  /** Some position of the 3 x 3 block around (x, y) is off the grid or not shape. */
  predicate HasOpenNeighbour(d: Dims, shape: seq<bool>, x: int, y: int)
    requires |shape| == d.Size()
  {
    exists nx, ny :: x - 1 <= nx <= x + 1 && y - 1 <= ny <= y + 1 && !ShapeAt(d, shape, nx, ny)
  }

  /** The edge test for the pixel with flat index i. */
  predicate IsEdgePixel(d: Dims, shape: seq<bool>, i: nat)
    requires |shape| == d.Size() && i < d.Size()
  {
    shape[i] && HasOpenNeighbour(d, shape, d.Col(i), d.Row(i))
  }

  /** The edge mask derived from a shape mask: a subset of it. */
  function EdgeMaskOf(d: Dims, shape: seq<bool>): (edge: seq<bool>)
    requires |shape| == d.Size()
    ensures |edge| == d.Size()
    ensures forall i :: 0 <= i < d.Size() && edge[i] ==> shape[i]
  {
    seq(d.Size(), i requires 0 <= i < d.Size() => IsEdgePixel(d, shape, i))
  }

  /**
   * Detect shape: a fresh all-false mask, set to true at every pixel that is
   * neither opaque white nor transparent.
   */
  method ComputeShapeMask(d: Dims, data: array<byte>) returns (shape: array<bool>)
    requires data.Length == Channels * d.Size()
    ensures shape.Length == d.Size()
    ensures forall i :: 0 <= i < d.Size() ==>
      (shape[i] <==> !(data[4 * i] == 255 && data[4 * i + 1] == 255 &&
                       data[4 * i + 2] == 255 && data[4 * i + 3] == 255) && data[4 * i + 3] != 0)
    ensures shape[..] == ShapeMaskOf(d, data[..])
  {
    shape := new bool[d.Size()](_ => false);
    for y := 0 to d.height
      invariant forall i :: 0 <= i < d.Size() ==>
        shape[i] == (i < y * d.width && IsShapePixel(data[..], i))
    {
      for x := 0 to d.width
        invariant forall i :: 0 <= i < d.Size() ==>
          shape[i] == (i < y * d.width + x && IsShapePixel(data[..], i))
      {
        var idx := d.Index(x, y);
        var r, g, b, a := data[4 * idx], data[4 * idx + 1], data[4 * idx + 2], data[4 * idx + 3];
        if !((r == 255 && g == 255 && b == 255 && a == 255) || a == 0) {
          shape[idx] := true;
        }
      }
      assert y * d.width + d.width == (y + 1) * d.width;
    }
    assert d.height * d.width == d.Size();
  }

  /**
   * The neighbour scan for the shape pixel at (x, y): rows dy = -1, 0, 1 and
   * columns dx = -1, 0, 1, stopping at the first position off the grid or
   * not shape.
   */
  method ScanNeighbours(d: Dims, shape: array<bool>, x: nat, y: nat) returns (isEdge: bool)
    requires shape.Length == d.Size() && d.InBounds(x, y)
    ensures isEdge <==> HasOpenNeighbour(d, shape[..], x, y)
  {
    isEdge := false;
    var dy := -1;
    while dy <= 1 && !isEdge
      invariant -1 <= dy <= 2
      invariant isEdge ==> HasOpenNeighbour(d, shape[..], x, y)
      invariant !isEdge ==> forall nx, ny :: x - 1 <= nx <= x + 1 && y - 1 <= ny < y + dy ==>
        ShapeAt(d, shape[..], nx, ny)
    {
      var dx := -1;
      while dx <= 1 && !isEdge
        invariant -1 <= dx <= 2
        invariant isEdge ==> HasOpenNeighbour(d, shape[..], x, y)
        invariant !isEdge ==> forall nx, ny :: x - 1 <= nx <= x + 1 && y - 1 <= ny < y + dy ==>
          ShapeAt(d, shape[..], nx, ny)
        invariant !isEdge ==> forall nx, ny :: x - 1 <= nx < x + dx && ny == y + dy ==>
          ShapeAt(d, shape[..], nx, ny)
      {
        var nx, ny := x + dx, y + dy;
        if !d.InBounds(nx, ny) || !shape[d.Index(nx, ny)] {
          assert !ShapeAt(d, shape[..], nx, ny);
          isEdge := true;
        }
        dx := dx + 1;
      }
      dy := dy + 1;
    }
  }

  /**
   * Detect edges: a fresh all-false mask, set to true at every shape pixel
   * whose neighbour scan finds an open position.
   */
  method ComputeEdgeMask(d: Dims, shape: array<bool>) returns (edge: array<bool>)
    requires shape.Length == d.Size()
    ensures edge.Length == d.Size()
    ensures forall i :: 0 <= i < d.Size() && edge[i] ==> shape[i]
    ensures forall x, y :: d.InBounds(x, y) ==>
      (edge[d.Index(x, y)] <==> shape[d.Index(x, y)] && HasOpenNeighbour(d, shape[..], x, y))
    ensures edge[..] == EdgeMaskOf(d, shape[..])
  {
    edge := new bool[d.Size()](_ => false);
    for y := 0 to d.height
      invariant forall i :: 0 <= i < d.Size() ==>
        edge[i] == (i < y * d.width && IsEdgePixel(d, shape[..], i))
    {
      for x := 0 to d.width
        invariant forall i :: 0 <= i < d.Size() ==>
          edge[i] == (i < y * d.width + x && IsEdgePixel(d, shape[..], i))
      {
        var idx := d.Index(x, y);
        IndexCoords(d, x, y);
        if shape[idx] {
          var isEdge := ScanNeighbours(d, shape, x, y);
          if isEdge {
            edge[idx] := true;
          }
        }
      }
      assert y * d.width + d.width == (y + 1) * d.width;
    }
    assert d.height * d.width == d.Size();
    forall x, y | d.InBounds(x, y)
      ensures edge[d.Index(x, y)] <==> shape[d.Index(x, y)] && HasOpenNeighbour(d, shape[..], x, y)
    {
      IndexCoords(d, x, y);
    }
  }

  /** Every shape pixel on the border of the grid is an edge pixel. */
  lemma BorderShapeIsEdge(d: Dims, shape: seq<bool>, x: nat, y: nat)
    requires |shape| == d.Size() && d.InBounds(x, y)
    requires x == 0 || y == 0 || x == d.width - 1 || y == d.height - 1
    ensures HasOpenNeighbour(d, shape, x, y)
  {
    if x == 0 {
      assert !ShapeAt(d, shape, x - 1, y);
    } else if y == 0 {
      assert !ShapeAt(d, shape, x, y - 1);
    } else if x == d.width - 1 {
      assert !ShapeAt(d, shape, x + 1, y);
    } else {
      assert !ShapeAt(d, shape, x, y + 1);
    }
  }

  /**
   * A shape pixel that is not an edge has all eight neighbours on the grid
   * and in the shape; in particular it is not on the border.
   */
  lemma InteriorNeighbours(d: Dims, shape: seq<bool>, x: nat, y: nat)
    requires |shape| == d.Size() && d.InBounds(x, y)
    requires !HasOpenNeighbour(d, shape, x, y)
    ensures 0 < x < d.width - 1 && 0 < y < d.height - 1
    ensures ShapeAt(d, shape, x + 1, y) && ShapeAt(d, shape, x - 1, y)
    ensures ShapeAt(d, shape, x, y + 1) && ShapeAt(d, shape, x, y - 1)
  {
    assert ShapeAt(d, shape, x + 1, y) && ShapeAt(d, shape, x - 1, y);
    assert ShapeAt(d, shape, x, y + 1) && ShapeAt(d, shape, x, y - 1);
  }
}
