/**
 * The working-size rule applied before an uploaded logo is drawn onto the
 * processing canvas: the dominant side (the width when it is strictly larger
 * than the height, otherwise the height) is clamped into [500, 1000] and the
 * other side is rescaled by the same factor, rounded with `Math.round`.
 */
module WorkingSize {
  import opened Raster

  const MinSide: nat := 500
  const MaxSide: nat := 1000

  predicate InRange(side: int) {
    MinSide <= side <= MaxSide
  }

  /** The side that decides the scaling: ties go to the height. */
  function Dominant(d: Dims): nat {
    if d.width > d.height then d.width else d.height
  }

  function Abs(x: int): nat {
    if x < 0 then -x else x
  }

  /**
   * `Math.round(n / d)` for a non-negative quotient, which is
   * `floor(n / d + 1/2)`: the unique integer r with
   * r - 1/2 <= n / d < r + 1/2.
   */
  function RoundDiv(n: nat, d: nat): (r: nat)
    requires d > 0
    ensures (2 * r - 1) * d <= 2 * n < (2 * r + 1) * d
  {
    var q := (2 * n + d) / (2 * d);
    assert q * (2 * d) + (2 * n + d) % (2 * d) == 2 * n + d;
    assert q * (2 * d) == 2 * (q * d);
    assert (2 * q - 1) * d == 2 * (q * d) - d;
    assert (2 * q + 1) * d == 2 * (q * d) + d;
    q
  }

  /**
   * The bracket of `RoundDiv` admits exactly one integer: an exact half has
   * only the upper neighbour in it.
   */
  lemma RoundDivUnique(n: nat, d: nat, r: int)
    requires d > 0
    requires (2 * r - 1) * d <= 2 * n < (2 * r + 1) * d
    ensures r == RoundDiv(n, d)
  {
    var q := RoundDiv(n, d);
    assert (2 * q - 1) * d <= 2 * n < (2 * q + 1) * d;
    if r < q {
      MulMono(2 * r + 1, 2 * q - 1, d);
      assert false;
    } else if r > q {
      MulMono(2 * q + 1, 2 * r - 1, d);
      assert false;
    }
  }

  /**
   * The resize rule of `processLogoImage`. A 0 x 0 image is excluded: the
   * rule would divide 0 by 0 there.
   */
  function Resize(width: nat, height: nat): (r: Dims)
    requires width > 0 || height > 0
    // the dominant side already in range: nothing changes, even when the
    // other side is out of range
    ensures InRange(Dominant(Dims(width, height))) ==> r == Dims(width, height)
    // the dominant side out of range is clamped to the nearer limit
    ensures width > height ==> r.width == Clamp(width)
    ensures width <= height ==> r.height == Clamp(height)
    // the result's dominant side is in range and the dominance is kept
    ensures InRange(Dominant(r))
    ensures width > height ==> r.height <= r.width
    ensures width <= height ==> r.width <= r.height
    // the aspect ratio is kept up to the rounding of the other side:
    // |r.height / r.width - height / width| <= 1 / (2 * r.width) when the
    // width dominates, and symmetrically
    ensures 2 * Abs(r.width * height - r.height * width) <= Dominant(Dims(width, height))
    // out of range: the other side is the rounded rescaling, ties rounded up
    ensures width > height && !InRange(width) ==> r.height == ScaleOther(Clamp(width), height, width)
    ensures width <= height && !InRange(height) ==> r.width == ScaleOther(Clamp(height), width, height)
  {
    if width > MaxSide || height > MaxSide || width < MinSide || height < MinSide then
      if width > height then
        if width > MaxSide then
          Dims(MaxSide, ScaleOther(MaxSide, height, width))
        else if width < MinSide then
          Dims(MinSide, ScaleOther(MinSide, height, width))
        else
          Dims(width, height)
      else
        if height > MaxSide then
          Dims(ScaleOther(MaxSide, width, height), MaxSide)
        else if height < MinSide then
          Dims(ScaleOther(MinSide, width, height), MinSide)
        else
          Dims(width, height)
    else
      Dims(width, height)
  }

  /** The value the dominant side takes: its nearer limit when out of range. */
  function Clamp(side: nat): (c: nat)
    ensures InRange(c)
    ensures InRange(side) ==> c == side
    ensures side > MaxSide ==> c == MaxSide
    ensures side < MinSide ==> c == MinSide
  {
    if side > MaxSide then MaxSide else if side < MinSide then MinSide else side
  }

  /**
   * The other side rescaled so that the dominant side becomes `limit`:
   * `Math.round(limit * other / dominant)`. It never exceeds `limit` and is
   * within half a pixel of the exact value; it can be 0 for extreme aspect
   * ratios.
   */
  function ScaleOther(limit: nat, other: nat, dominant: nat): (r: nat)
    requires other <= dominant && dominant > 0
    ensures r <= limit
    ensures 2 * Abs(limit * other - r * dominant) <= dominant
    ensures (2 * r - 1) * dominant <= 2 * (limit * other) < (2 * r + 1) * dominant
  {
    var r := RoundDiv(limit * other, dominant);
    RoundedWithinLimit(limit, other, dominant, r);
    r
  }

  lemma RoundedWithinLimit(limit: nat, other: nat, dominant: nat, r: int)
    requires other <= dominant && dominant > 0
    requires (2 * r - 1) * dominant <= 2 * (limit * other) < (2 * r + 1) * dominant
    ensures r <= limit
    ensures 2 * Abs(limit * other - r * dominant) <= dominant
  {
    assert (2 * r - 1) * dominant == 2 * (r * dominant) - dominant;
    assert (2 * r + 1) * dominant == 2 * (r * dominant) + dominant;
    if r > limit {
      assert (limit + 1) * dominant == limit * dominant + dominant;
      MulMono(other, dominant, limit);
      MulMono(limit + 1, r, dominant);
    }
  }

  /**
   * The working size is fixed by the rounding bracket: when the dominant side
   * is out of range, any size whose dominant side is the clamped one and
   * whose other side lies in the bracket of `Math.round` is the one `Resize`
   * returns. An exact half therefore has one answer, the upper one.
   */
  lemma ResizeDetermined(width: nat, height: nat, r: Dims)
    requires width > 0 || height > 0
    requires !InRange(Dominant(Dims(width, height)))
    requires width > height ==>
      && r.width == Clamp(width)
      && (2 * r.height - 1) * width <= 2 * (Clamp(width) * height) < (2 * r.height + 1) * width
    requires width <= height ==>
      && r.height == Clamp(height)
      && (2 * r.width - 1) * height <= 2 * (Clamp(height) * width) < (2 * r.width + 1) * height
    ensures r == Resize(width, height)
  {
    if width > height {
      RoundDivUnique(Clamp(width) * height, width, r.height);
    } else {
      RoundDivUnique(Clamp(height) * width, height, r.width);
    }
  }

  /** An exact half rounds up: 1000 * 1 / 2000 gives 1, not 0. */
  lemma HalfRoundsUp()
    ensures Resize(2000, 1) == Dims(1000, 1)
    ensures RoundDiv(1, 2) == 1
  {
    ResizeDetermined(2000, 1, Dims(1000, 1));
  }

  /** Resizing an already resized image changes nothing. */
  lemma ResizeIdempotent(width: nat, height: nat)
    requires width > 0 || height > 0
    ensures var r := Resize(width, height);
      (r.width > 0 || r.height > 0) && Resize(r.width, r.height) == r
  {
  }

  /** Worked cases of the rule, including the two quirks it keeps. */
  lemma ResizeExamples()
    ensures Resize(2000, 1000) == Dims(1000, 500)
    ensures Resize(2000, 500) == Dims(1000, 250)
    ensures Resize(100, 100) == Dims(500, 500)
    ensures Resize(1000, 1000) == Dims(1000, 1000)
    // dominant side in range: the out-of-range height is kept
    ensures Resize(800, 300) == Dims(800, 300)
    // extreme aspect ratio: the other side rounds to 0
    ensures Resize(3000, 1) == Dims(1000, 0)
    // 1000 * 1 / 1500 = 0.67 rounds up, 1000 * 3 / 2000 = 1.5 rounds half up
    ensures Resize(1500, 1) == Dims(1000, 1)
    ensures Resize(3, 2000) == Dims(2, 1000)
  {
  }
}
