/** The bounding box of the non-white pixels that
    `CaptchaSolver._crop_image_background` computes with `np.where` and
    `np.min`/`np.max` before it crops the screenshot.

    The crop itself is left to the image library: its box is
    `[minX, minY, maxX, maxY]` with the right and lower edges exclusive, so
    the cropped image stops one column and one row short of the last
    non-white ones. */
module CropBackground {
  import opened Common

  /** The grayscale value the code treats as background. */
  const White := 255

  /** A pixel position as `np.where` reports it: column `x`, row `y`. */
  datatype Pixel = Pixel(x: int, y: int)

  /** The list `[min column, min row, max column, max row]` handed to `crop`. */
  datatype BBox = BBox(minX: int, minY: int, maxX: int, maxY: int)

  /** `p` lies in the grid and is not white. */
  predicate IsContent(g: Grid, p: Pixel)
  {
    0 <= p.y < |g| && 0 <= p.x < |g[p.y]| && g[p.y][p.x] != White
  }

  predicate Inside(b: BBox, p: Pixel)
  {
    b.minX <= p.x <= b.maxX && b.minY <= p.y <= b.maxY
  }

  /** The non-white positions of row `y`, left to right. */
  function RowContent(row: seq<int>, y: int): (r: seq<Pixel>)
    ensures forall p :: p in r <==> p.y == y && 0 <= p.x < |row| && row[p.x] != White
    decreases |row|
  {
    if |row| == 0 then []
    else
      var last := |row| - 1;
      RowContent(row[..last], y) + (if row[last] != White then [Pixel(last, y)] else [])
  }

  /** `np.where(img != 255)`: the non-white positions in row-major order. */
  function NonWhite(g: Grid): (r: seq<Pixel>)
    ensures forall p :: p in r <==> IsContent(g, p)
    decreases |g|
  {
    if |g| == 0 then []
    else
      var last := |g| - 1;
      var r := NonWhite(g[..last]) + RowContent(g[last], last);
      assert forall p :: IsContent(g[..last], p) <==> IsContent(g, p) && p.y < last;
      r
  }

  /** `np.min` over a non-empty array. */
  function Min(s: seq<int>): (m: int)
    requires |s| > 0
    ensures m in s && forall v :: v in s ==> m <= v
  {
    if |s| == 1 then s[0]
    else
      var t := Min(s[1..]);
      assert forall v :: v in s ==> v == s[0] || v in s[1..];
      if s[0] <= t then s[0] else t
  }

  /** `np.max` over a non-empty array. */
  function Max(s: seq<int>): (m: int)
    requires |s| > 0
    ensures m in s && forall v :: v in s ==> v <= m
  {
    if |s| == 1 then s[0]
    else
      var t := Max(s[1..]);
      assert forall v :: v in s ==> v == s[0] || v in s[1..];
      if s[0] >= t then s[0] else t
  }

  /** `non_white_pixels[1]`: the columns of a list of positions. */
  function Columns(w: seq<Pixel>): (xs: seq<int>)
    ensures |xs| == |w| && forall k :: 0 <= k < |w| ==> xs[k] == w[k].x
  {
    seq(|w|, k requires 0 <= k < |w| => w[k].x)
  }

  /** `non_white_pixels[0]`: the rows of a list of positions. */
  function Rows(w: seq<Pixel>): (ys: seq<int>)
    ensures |ys| == |w| && forall k :: 0 <= k < |w| ==> ys[k] == w[k].y
  {
    seq(|w|, k requires 0 <= k < |w| => w[k].y)
  }

  /** main.py lines 110-111: the columns and rows of the non-white pixels,
      reduced with min and max; numpy raises on the empty reduction when
      every pixel is white. */
  function BoundingBox(g: Grid): (r: Result<BBox>)
    ensures r.Err? <==> forall p :: !IsContent(g, p)
    ensures r.Err? ==> r.error == EmptyReduction
  {
    var w := NonWhite(g);
    if |w| == 0 then Err(EmptyReduction)
    else
      assert IsContent(g, w[0]);
      var xs, ys := Columns(w), Rows(w);
      Ok(BBox(Min(xs), Min(ys), Max(xs), Max(ys)))
  }

  /** Every non-white pixel lies inside the box. */
  lemma BoundingBoxCovers(g: Grid, p: Pixel)
    requires BoundingBox(g).Ok? && IsContent(g, p)
    ensures Inside(BoundingBox(g).value, p)
  {
    var w := NonWhite(g);
    var k :| 0 <= k < |w| && w[k] == p;
    assert Columns(w)[k] == p.x && Rows(w)[k] == p.y;
    assert Columns(w)[k] in Columns(w) && Rows(w)[k] in Rows(w);
  }

  /** Each of the box's four edges is touched by a non-white pixel. */
  lemma BoundingBoxAttained(g: Grid)
    requires BoundingBox(g).Ok?
    ensures var b := BoundingBox(g).value;
            && (exists p :: IsContent(g, p) && p.x == b.minX)
            && (exists p :: IsContent(g, p) && p.y == b.minY)
            && (exists p :: IsContent(g, p) && p.x == b.maxX)
            && (exists p :: IsContent(g, p) && p.y == b.maxY)
  {
    var w := NonWhite(g);
    var xs, ys := Columns(w), Rows(w);
    var b := BoundingBox(g).value;
    var i1 :| 0 <= i1 < |xs| && xs[i1] == b.minX;
    var i2 :| 0 <= i2 < |ys| && ys[i2] == b.minY;
    var i3 :| 0 <= i3 < |xs| && xs[i3] == b.maxX;
    var i4 :| 0 <= i4 < |ys| && ys[i4] == b.maxY;
    assert w[i1] in w && w[i2] in w && w[i3] in w && w[i4] in w;
  }

  /** Two boxes each of whose corners lies inside the other are equal. */
  lemma SameCorners(r: BBox, b: BBox)
    requires Inside(r, Pixel(b.minX, b.minY)) && Inside(r, Pixel(b.maxX, b.maxY))
    requires b.minX <= r.minX && b.minY <= r.minY && r.maxX <= b.maxX && r.maxY <= b.maxY
    ensures r == b
  {
  }

  /** A screenshot whose non-white pixels fill exactly one rectangle yields
      that rectangle. */
  lemma RectangleRoundTrip(g: Grid, b: BBox)
    requires b.minX <= b.maxX && b.minY <= b.maxY
    requires forall p :: IsContent(g, p) <==> Inside(b, p)
    ensures BoundingBox(g) == Ok(b)
  {
    var lo, hi := Pixel(b.minX, b.minY), Pixel(b.maxX, b.maxY);
    assert Inside(b, lo) && Inside(b, hi);
    assert IsContent(g, lo);
    BoundingBoxCovers(g, lo);
    BoundingBoxCovers(g, hi);
    var r := BoundingBox(g).value;
    BoundingBoxAttained(g);
    var p1 :| IsContent(g, p1) && p1.x == r.minX;
    var p2 :| IsContent(g, p2) && p2.y == r.minY;
    var p3 :| IsContent(g, p3) && p3.x == r.maxX;
    var p4 :| IsContent(g, p4) && p4.y == r.maxY;
    assert Inside(b, p1) && Inside(b, p2) && Inside(b, p3) && Inside(b, p4);
    SameCorners(r, b);
  }
}
