/** The pointer positions of one drag in `CaptchaSolver.solve_captcha`
    (main.py lines 71-75): start at the centre of the puzzle piece, end at
    the gap's column shifted by a fixed offset and by an alternating
    jitter. Box coordinates are exact reals. */
module DragPath {

  /** The piece's `bounding_box()`. */
  datatype Box = Box(x: real, y: real, width: real, height: real)

  /** A pointer position handed to `mouse.move`. */
  datatype Point = Point(x: real, y: real)

  /** The constant subtracted from the piece's left edge. */
  const PieceOffset: real := 20.0

  /** `1 if attempt % 2 == 0 else -1`. */
  function JitterSign(attempt: nat): (s: int)
    ensures s == 1 || s == -1
    ensures s == 1 <==> attempt % 2 == 0
  {
    if attempt % 2 == 0 then 1 else -1
  }

  /** The jitter added to both coordinates of the target on `attempt`. */
  function JitterOffset(jitter: real, attempt: nat): real
  {
    jitter * JitterSign(attempt) as real
  }

  /** The first `mouse.move`: the middle of the piece. */
  function DragStart(b: Box): (p: Point)
    ensures p.x - b.x == b.x + b.width - p.x
    ensures p.y - b.y == b.y + b.height - p.y
  {
    Point(b.x + b.width / 2.0, b.y + b.height / 2.0)
  }

  /** The second `mouse.move`: the piece's left edge moved by the gap's
      column less `PieceOffset`, at the start's height, both shifted by the
      jitter of this attempt. */
  function DragTarget(b: Box, gapX: int, jitter: real, attempt: nat): (p: Point)
    ensures p.x - JitterOffset(jitter, attempt) == b.x - PieceOffset + gapX as real
    ensures p.y - JitterOffset(jitter, attempt) == DragStart(b).y
  {
    var shift := JitterOffset(jitter, attempt);
    Point(b.x - PieceOffset + gapX as real + shift, b.y + b.height / 2.0 + shift)
  }

  /** The sign alternates: consecutive attempts have opposite signs. */
  lemma SignAlternates(attempt: nat)
    ensures JitterSign(attempt + 1) == -JitterSign(attempt)
    ensures JitterSign(attempt + 2) == JitterSign(attempt)
  {
  }

  /** Consecutive attempts aim `2 * jitter` apart in each coordinate, in the
      direction given by the earlier attempt's sign. */
  lemma ConsecutiveTargets(b: Box, gapX: int, jitter: real, attempt: nat)
    ensures var t, u := DragTarget(b, gapX, jitter, attempt), DragTarget(b, gapX, jitter, attempt + 1);
            && t.x - u.x == 2.0 * jitter * JitterSign(attempt) as real
            && t.y - u.y == 2.0 * jitter * JitterSign(attempt) as real
  {
    SignAlternates(attempt);
  }

  /** Attempts of the same parity aim at the same point for the same box
      and gap. */
  lemma SameParitySameTarget(b: Box, gapX: int, jitter: real, i: nat, k: nat)
    requires i % 2 == k % 2
    ensures DragTarget(b, gapX, jitter, i) == DragTarget(b, gapX, jitter, k)
  {
    assert JitterSign(i) == JitterSign(k);
  }
}
