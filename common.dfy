/** Values shared by every part of the model: the Python exceptions the
    modelled code can raise, a result type carrying them, and the grayscale
    grid that numpy hands to the code. */
module Common {

  /** The exceptions raised by the modelled lines of main.py. Python raises
      the last three all as `ValueError`, told apart only by their messages;
      the model names each by the line that raises it. */
  datatype Error =
    | IndexError      // `split(...)[1]` on a one-element list
    | EmptyReduction  // numpy `min`/`max` over a zero-size array
    | EmptyMax        // Python `max()` over an empty sequence of contours
    | NoGapPosition   // find_gap_position's own ValueError when m00 is zero

  /** Either the value an expression evaluates to, or the exception it raises. */
  datatype Result<+T> = Ok(value: T) | Err(error: Error)

  /** A grayscale image as numpy indexes it: rows first, then columns. */
  type Grid = seq<seq<int>>
}
