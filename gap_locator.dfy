/** The deterministic part of `PuzzleSolver.find_gap_position`: the binary
    threshold of the edge map, the choice of the contour with the largest
    area, the zero-moment check and the truncated centroid. The Sobel edge
    map and the contour tracing stay abstract: a contour is the record of
    the four numbers the code reads from it. */
module GapLocator {
  import opened Common

  /** The default `threshold` argument of `find_gap_position`. */
  const DefaultThreshold := 100

  /** The `maxval` passed to the threshold. */
  const MaskOn := 255

  /** What the code reads of one contour: `cv2.contourArea` and the three
      moments `m00`, `m10`, `m01` of `cv2.moments`. */
  datatype Contour = Contour(area: real, m00: real, m10: real, m01: real)

  /** The returned `(cx, cy)`. */
  datatype Position = Position(x: int, y: int)

  /** A binary mask: every cell 0 or 255. */
  predicate IsBinaryMask(m: Grid)
  {
    forall y, x :: 0 <= y < |m| && 0 <= x < |m[y]| ==> m[y][x] == 0 || m[y][x] == MaskOn
  }

  /** `g` and `h` have the same number of rows and each row the same length. */
  predicate SameShape(g: Grid, h: Grid)
  {
    |g| == |h| && forall y :: 0 <= y < |g| ==> |g[y]| == |h[y]|
  }

  function ThresholdRow(row: seq<int>, threshold: int): (r: seq<int>)
  {
    seq(|row|, x requires 0 <= x < |row| => if row[x] > threshold then MaskOn else 0)
  }

  /** `cv2.threshold(edges, threshold, 255, THRESH_BINARY)` at main.py
      line 16: a cell is switched on exactly when it is strictly above the
      threshold. */
  function ThresholdBinary(edges: Grid, threshold: int): (mask: Grid)
    ensures SameShape(mask, edges)
    ensures IsBinaryMask(mask)
    ensures forall y, x :: 0 <= y < |mask| && 0 <= x < |mask[y]| ==>
              (mask[y][x] == MaskOn <==> edges[y][x] > threshold)
  {
    seq(|edges|, y requires 0 <= y < |edges| => ThresholdRow(edges[y], threshold))
  }

  /** Thresholding a mask again at a level in [0, 255) changes nothing. */
  lemma ThresholdIdempotent(edges: Grid, threshold: int)
    requires 0 <= threshold < MaskOn
    ensures ThresholdBinary(ThresholdBinary(edges, threshold), threshold) == ThresholdBinary(edges, threshold)
  {
    var m := ThresholdBinary(edges, threshold);
    var mm := ThresholdBinary(m, threshold);
    forall y | 0 <= y < |m|
      ensures mm[y] == m[y]
    {
      assert |mm[y]| == |m[y]|;
    }
  }

  // ---------------------------------------------------------------------
  // max(contours, key=cv2.contourArea)

  /** Index `k` is where Python's `max` with a key stops: its area is not
      exceeded, and every earlier contour's area is strictly smaller. */
  predicate IsFirstLargest(cs: seq<Contour>, k: int)
  {
    && 0 <= k < |cs|
    && (forall j :: 0 <= j < |cs| ==> cs[j].area <= cs[k].area)
    && (forall j :: 0 <= j < k ==> cs[j].area < cs[k].area)
  }

  /** At most one index is the first largest. */
  lemma FirstLargestUnique(cs: seq<Contour>, k: int, l: int)
    requires IsFirstLargest(cs, k) && IsFirstLargest(cs, l)
    ensures k == l
  {
    assert cs[k].area == cs[l].area;
  }

  /** The scan of Python's `max`: `best` is the current maximum among the
      first `next` contours, replaced only by a strictly larger area. */
  function MaxScan(cs: seq<Contour>, best: nat, next: nat): (k: nat)
    requires best < next <= |cs|
    requires forall j :: 0 <= j < next ==> cs[j].area <= cs[best].area
    requires forall j :: 0 <= j < best ==> cs[j].area < cs[best].area
    ensures IsFirstLargest(cs, k)
    decreases |cs| - next
  {
    if next == |cs| then best
    else if cs[next].area > cs[best].area then MaxScan(cs, next, next + 1)
    else MaxScan(cs, best, next + 1)
  }

  /** main.py line 18: the index of `max(contours, key=cv2.contourArea)`,
      which raises on an empty list. */
  function LargestContour(cs: seq<Contour>): (r: Result<nat>)
    ensures r.Err? <==> |cs| == 0
    ensures r.Err? ==> r.error == EmptyMax
    ensures r.Ok? ==> IsFirstLargest(cs, r.value)
  {
    if |cs| == 0 then Err(EmptyMax) else Ok(MaxScan(cs, 0, 1))
  }

  // ---------------------------------------------------------------------
  // int(m10 / m00), int(m01 / m00)

  /** `n` is `q` with its fractional part dropped, toward zero. */
  predicate IsTruncation(n: int, q: real)
  {
    && (0.0 <= q ==> n as real <= q < n as real + 1.0)
    && (q < 0.0 ==> n as real - 1.0 < q <= n as real)
  }

  /** Python's `int()` on a float. */
  function Trunc(q: real): (n: int)
    ensures IsTruncation(n, q)
  {
    if q >= 0.0 then q.Floor else -((-q).Floor)
  }

  /** Truncation is odd, so it differs from the floor on negative
      non-integers: `int(-0.5)` is 0 where `floor(-0.5)` is -1. */
  lemma TruncTowardZero(q: real)
    ensures Trunc(-q) == -Trunc(q)
    ensures q < 0.0 && q != q.Floor as real ==> Trunc(q) == q.Floor + 1
  {
  }

  /** The truncation of a number is unique. */
  lemma TruncationUnique(n: int, m: int, q: real)
    requires IsTruncation(n, q) && IsTruncation(m, q)
    ensures n == m
  {
  }

  /** main.py lines 21-25: a zero `m00` raises, otherwise the centroid is
      the two first moments divided by `m00`, truncated toward zero. */
  function Centroid(c: Contour): (r: Result<Position>)
    ensures r.Err? <==> c.m00 == 0.0
    ensures r.Err? ==> r.error == NoGapPosition
    ensures r.Ok? ==> IsTruncation(r.value.x, c.m10 / c.m00) && IsTruncation(r.value.y, c.m01 / c.m00)
  {
    if c.m00 == 0.0 then Err(NoGapPosition)
    else Ok(Position(Trunc(c.m10 / c.m00), Trunc(c.m01 / c.m00)))
  }

  /** `find_gap_position` (main.py lines 14-26) on the edge map of the
      captured image; `contoursOf` stands for `cv2.findContours`. */
  function FindGapPosition(edges: Grid, threshold: int, contoursOf: Grid -> seq<Contour>): (r: Result<Position>)
    ensures var cs := contoursOf(ThresholdBinary(edges, threshold));
            && (r == Err(EmptyMax) <==> |cs| == 0)
            && (r == Err(NoGapPosition) <==> exists k :: IsFirstLargest(cs, k) && cs[k].m00 == 0.0)
            && (r.Err? ==> r.error == EmptyMax || r.error == NoGapPosition)
            && (r.Ok? ==> forall k :: IsFirstLargest(cs, k) ==>
                  cs[k].m00 != 0.0 &&
                  IsTruncation(r.value.x, cs[k].m10 / cs[k].m00) &&
                  IsTruncation(r.value.y, cs[k].m01 / cs[k].m00))
  {
    var mask := ThresholdBinary(edges, threshold);
    var cs := contoursOf(mask);
    match LargestContour(cs)
    case Err(e) => Err(e)
    case Ok(k) =>
      assert forall l :: IsFirstLargest(cs, l) ==> l == k by {
        forall l | IsFirstLargest(cs, l) ensures l == k { FirstLargestUnique(cs, k, l); }
      }
      Centroid(cs[k])
  }
}
