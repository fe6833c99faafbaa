/**
 * The distance-field solver: a fixed number of synchronous Jacobi passes of
 * a Poisson-like relaxation with forcing 0.01. Pixels that are not shape, and
 * edge pixels, are pinned to 0; every other pixel takes a quarter of 0.01
 * plus the previous pass's values of its four direct neighbours.
 *
 * The field is modelled over `real`: the rounding of each stored value to a
 * 32-bit float is not captured.
 */
module Diffusion {
  import opened Raster
  import opened Classify

  /** Number of relaxation passes. */
  const Passes: nat := 300

  /** Forcing term added to the neighbour sum in every pass. */
  const Forcing: real := 0.01

  /** Pinned pixels: not shape, or on the edge of the shape. */
  predicate Pinned(shape: seq<bool>, edge: seq<bool>, i: nat)
    requires i < |shape| && i < |edge|
  {
    !shape[i] || edge[i]
  }

  predicate WellFormed(d: Dims, shape: seq<bool>, edge: seq<bool>, f: seq<real>) {
    |shape| == d.Size() && |edge| == d.Size() && |f| == d.Size()
  }

  /** A field value at (x, y), read as 0 off the grid or off the shape. */
  function FieldValue(d: Dims, shape: seq<bool>, f: seq<real>, x: int, y: int): (v: real)
    requires |shape| == d.Size() && |f| == d.Size()
    ensures ShapeAt(d, shape, x, y) ==> v == f[d.Index(x, y)]
    ensures !ShapeAt(d, shape, x, y) ==> v == 0.0
  {
    if x < 0 || x >= d.width || y < 0 || y >= d.height || !shape[d.Index(x, y)] then 0.0
    else f[d.Index(x, y)]
  }

  /** The sum of the four direct neighbours of (x, y) in field f. */
  function NeighbourSum(d: Dims, shape: seq<bool>, f: seq<real>, x: int, y: int): real
    requires |shape| == d.Size() && |f| == d.Size()
  {
    FieldValue(d, shape, f, x + 1, y) + FieldValue(d, shape, f, x - 1, y) +
    FieldValue(d, shape, f, x, y + 1) + FieldValue(d, shape, f, x, y - 1)
  }

  /** The value a pass gives pixel i, from the previous pass's field f only. */
  function StepAt(d: Dims, shape: seq<bool>, edge: seq<bool>, f: seq<real>, i: nat): real
    requires WellFormed(d, shape, edge, f) && i < d.Size()
  {
    if Pinned(shape, edge, i) then 0.0
    else (Forcing + NeighbourSum(d, shape, f, d.Col(i), d.Row(i))) / 4.0
  }

  /** One synchronous pass: every new value is computed from f alone. */
  function Step(d: Dims, shape: seq<bool>, edge: seq<bool>, f: seq<real>): (g: seq<real>)
    requires WellFormed(d, shape, edge, f)
    ensures |g| == d.Size()
    ensures forall i :: 0 <= i < d.Size() && Pinned(shape, edge, i) ==> g[i] == 0.0
  {
    seq(d.Size(), i requires 0 <= i < d.Size() => StepAt(d, shape, edge, f, i))
  }

  /** The all-zero field every solve starts from. */
  function Zeros(n: nat): (z: seq<real>)
    ensures |z| == n && forall i :: 0 <= i < n ==> z[i] == 0.0
  {
    seq(n, _ => 0.0)
  }

  /**
   * The field after n passes. It is non-negative everywhere and 0 at every
   * pinned pixel after every pass.
   */
  function Field(d: Dims, shape: seq<bool>, edge: seq<bool>, n: nat): (f: seq<real>)
    requires |shape| == d.Size() && |edge| == d.Size()
    ensures |f| == d.Size()
    ensures forall i :: 0 <= i < d.Size() ==> f[i] >= 0.0
    ensures forall i :: 0 <= i < d.Size() && Pinned(shape, edge, i) ==> f[i] == 0.0
  {
    if n == 0 then Zeros(d.Size())
    else Step(d, shape, edge, Field(d, shape, edge, n - 1))
  }

  /** `getFieldValue`: read one neighbour of the field being relaxed. */
  method GetFieldValue(d: Dims, shape: array<bool>, field: array<real>, x: int, y: int)
    returns (v: real)
    requires shape.Length == d.Size() && field.Length == d.Size()
    ensures v == FieldValue(d, shape[..], field[..], x, y)
  {
    if x < 0 || x >= d.width || y < 0 || y >= d.height || !shape[d.Index(x, y)] {
      return 0.0;
    }
    v := field[d.Index(x, y)];
  }

  /** One pass: write the next field into `temp`, reading only `dist`. */
  method RelaxPass(d: Dims, shape: array<bool>, edge: array<bool>, dist: array<real>, temp: array<real>)
    requires shape.Length == d.Size() && edge.Length == d.Size()
    requires dist.Length == d.Size() && temp.Length == d.Size() && dist != temp
    modifies temp
    ensures temp[..] == Step(d, shape[..], edge[..], dist[..])
  {
    ghost var s, e, f := shape[..], edge[..], dist[..];
    for y := 0 to d.height
      invariant forall i :: 0 <= i < y * d.width && i < d.Size() ==> temp[i] == StepAt(d, s, e, f, i)
    {
      for x := 0 to d.width
        invariant forall i :: 0 <= i < y * d.width + x && i < d.Size() ==> temp[i] == StepAt(d, s, e, f, i)
      {
        var idx := d.Index(x, y);
        IndexCoords(d, x, y);
        if !shape[idx] || edge[idx] {
          temp[idx] := 0.0;
          continue;
        }
        var right := GetFieldValue(d, shape, dist, x + 1, y);
        var left := GetFieldValue(d, shape, dist, x - 1, y);
        var down := GetFieldValue(d, shape, dist, x, y + 1);
        var up := GetFieldValue(d, shape, dist, x, y - 1);
        temp[idx] := (Forcing + (right + left + down + up)) / 4.0;
      }
      assert y * d.width + d.width == (y + 1) * d.width;
    }
    assert d.height * d.width == d.Size();
    assert forall i :: 0 <= i < d.Size() ==> temp[..][i] == Step(d, s, e, f)[i];
  }

  /** Copy the freshly computed pass back into the field. */
  method CopyBack(temp: array<real>, dist: array<real>)
    requires temp.Length == dist.Length && dist != temp
    modifies dist
    ensures dist[..] == temp[..]
  {
    for i := 0 to dist.Length
      invariant forall k :: 0 <= k < i ==> dist[k] == temp[k]
    {
      dist[i] := temp[i];
    }
  }

  /**
   * The solver: `Passes` double-buffered passes from the all-zero field.
   * The result is the field after `Passes` synchronous passes.
   */
  method Solve(d: Dims, shape: array<bool>, edge: array<bool>) returns (dist: array<real>)
    requires shape.Length == d.Size() && edge.Length == d.Size()
    ensures dist.Length == d.Size()
    ensures dist[..] == Field(d, shape[..], edge[..], Passes)
  {
    dist := new real[d.Size()](_ => 0.0);
    var temp := new real[d.Size()](_ => 0.0);
    ghost var s, e := shape[..], edge[..];
    assert dist[..] == Zeros(d.Size()) == Field(d, s, e, 0);
    for iter := 0 to Passes
      invariant dist.Length == d.Size() && temp.Length == d.Size()
      invariant shape[..] == s && edge[..] == e
      invariant dist[..] == Field(d, s, e, iter)
    {
      RelaxPass(d, shape, edge, dist, temp);
      CopyBack(temp, dist);
      assert dist[..] == Step(d, s, e, Field(d, s, e, iter)) == Field(d, s, e, iter + 1);
    }
  }

  /** Each pass can only raise a field value: monotonicity of one pass. */
  lemma StepMonotone(d: Dims, shape: seq<bool>, edge: seq<bool>, f: seq<real>, g: seq<real>)
    requires WellFormed(d, shape, edge, f) && WellFormed(d, shape, edge, g)
    requires forall i :: 0 <= i < d.Size() ==> f[i] <= g[i]
    ensures forall i :: 0 <= i < d.Size() ==> Step(d, shape, edge, f)[i] <= Step(d, shape, edge, g)[i]
  {
    forall i | 0 <= i < d.Size()
      ensures StepAt(d, shape, edge, f, i) <= StepAt(d, shape, edge, g, i)
    {
      if !Pinned(shape, edge, i) {
        var x: int, y: int := d.Col(i), d.Row(i);
        assert FieldValue(d, shape, f, x + 1, y) <= FieldValue(d, shape, g, x + 1, y);
        assert FieldValue(d, shape, f, x - 1, y) <= FieldValue(d, shape, g, x - 1, y);
        assert FieldValue(d, shape, f, x, y + 1) <= FieldValue(d, shape, g, x, y + 1);
        assert FieldValue(d, shape, f, x, y - 1) <= FieldValue(d, shape, g, x, y - 1);
      }
    }
  }

  /** The field never decreases from one pass to the next. */
  lemma {:induction false} FieldGrows(d: Dims, shape: seq<bool>, edge: seq<bool>, n: nat)
    requires |shape| == d.Size() && |edge| == d.Size()
    ensures forall i :: 0 <= i < d.Size() ==>
      Field(d, shape, edge, n)[i] <= Field(d, shape, edge, n + 1)[i]
  {
    if n > 0 {
      FieldGrows(d, shape, edge, n - 1);
      StepMonotone(d, shape, edge, Field(d, shape, edge, n - 1), Field(d, shape, edge, n));
    }
  }

  /** A pass adds at most Forcing / 4 to the largest value: after n passes every value is at most n / 400. */
  lemma {:induction false} FieldBounded(d: Dims, shape: seq<bool>, edge: seq<bool>, n: nat)
    requires |shape| == d.Size() && |edge| == d.Size()
    ensures forall i :: 0 <= i < d.Size() ==> Field(d, shape, edge, n)[i] <= (n as real) * Forcing / 4.0
  {
    if n > 0 {
      FieldBounded(d, shape, edge, n - 1);
      var f := Field(d, shape, edge, n - 1);
      var bound := ((n - 1) as real) * Forcing / 4.0;
      forall i | 0 <= i < d.Size()
        ensures StepAt(d, shape, edge, f, i) <= (n as real) * Forcing / 4.0
      {
        if !Pinned(shape, edge, i) {
          var x: int, y: int := d.Col(i), d.Row(i);
          assert FieldValue(d, shape, f, x + 1, y) <= bound;
          assert FieldValue(d, shape, f, x - 1, y) <= bound;
          assert FieldValue(d, shape, f, x, y + 1) <= bound;
          assert FieldValue(d, shape, f, x, y - 1) <= bound;
        }
      }
    }
  }

  /** After at least one pass, every interior shape pixel holds at least Forcing / 4. */
  lemma InteriorPositive(d: Dims, shape: seq<bool>, edge: seq<bool>, n: nat, i: nat)
    requires |shape| == d.Size() && |edge| == d.Size()
    requires n >= 1 && i < d.Size() && !Pinned(shape, edge, i)
    ensures Field(d, shape, edge, n)[i] >= Forcing / 4.0
  {
    var f := Field(d, shape, edge, n - 1);
    var x: int, y: int := d.Col(i), d.Row(i);
    assert FieldValue(d, shape, f, x + 1, y) >= 0.0;
    assert FieldValue(d, shape, f, x - 1, y) >= 0.0;
    assert FieldValue(d, shape, f, x, y + 1) >= 0.0;
    assert FieldValue(d, shape, f, x, y - 1) >= 0.0;
  }

  /**
   * The pass formula read at coordinates: an interior shape pixel at (x, y)
   * gets (0.01 + the previous values of its four neighbours) / 4, and each
   * of those neighbours lies on the grid and in the shape.
   */
  lemma StepInterior(d: Dims, shape: seq<bool>, edge: seq<bool>, f: seq<real>, x: nat, y: nat)
    requires WellFormed(d, shape, edge, f) && d.InBounds(x, y)
    requires edge == EdgeMaskOf(d, shape)
    requires !Pinned(shape, edge, d.Index(x, y))
    ensures 0 < x < d.width - 1 && 0 < y < d.height - 1
    ensures Step(d, shape, edge, f)[d.Index(x, y)] ==
      (Forcing + f[d.Index(x + 1, y)] + f[d.Index(x - 1, y)] + f[d.Index(x, y + 1)] + f[d.Index(x, y - 1)]) / 4.0
  {
    IndexCoords(d, x, y);
    InteriorNeighbours(d, shape, x, y);
  }
}
