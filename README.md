# Slider-captcha solver: a verified model of its core

The solver drags the puzzle piece of a slider captcha into the gap of the
background image. Each attempt:

1. reads the background image's URL out of the element's inline `style`;
2. crops the screenshot of that image to its non-white bounding box;
3. finds the gap:
   - thresholds the edge map,
   - takes the contour with the largest area,
   - returns the truncated centroid of that contour;
4. drags the piece from its centre to the gap's column, adding a jitter
   whose sign alternates from attempt to attempt;
5. waits for the success element. When the wait raises (a timeout or any
   other exception) it closes and reopens the captcha, then retries, up to
   `max_tries` times.

The model is split into one module per piece of the core:

| file | module | models |
|---|---|---|
| `common.dfy` | `Common` | the exceptions that can escape (`IndexError`, the empty reduction, the empty `max`, the zero moment) and a `Result` type that carries them |
| `style_url.dfy` | `StyleUrl` | Python's `str.find`/`str.split` with a non-empty separator, `sep.join`, and the URL extraction |
| `crop.dfy` | `CropBackground` | `np.where(img != 255)` and the min/max bounding box handed to `crop` |
| `gap_locator.dfy` | `GapLocator` | the binary threshold, Python's `max` by contour area, the `m00 == 0` check, `int()` of the moment ratios |
| `drag.dfy` | `DragPath` | the jitter sign, the drag start and the drag target |
| `solver.dfy` | `SolveController` | the retry loop: an imperative method, the function that specifies it, and lemmas about the whole loop |

The browser, the file system and the image library are replaced by an
oracle `world: nat -> Attempt`. For each attempt index it gives:

- the style string;
- the screenshot as a grid of grey levels;
- the edge map;
- the piece's bounding box;
- the outcome of the 3000 ms wait: `Found`, `Falsy`, or `Timeout`, which
  stands for any exception the wait raises.

`contoursOf` stands for `cv2.findContours`. It maps a binary mask to the
area and the moments `m00`, `m10` and `m01` of each contour.

The loop records every effect on the outside world in a ghost trace:

- the temporary file written (`Capture`);
- the mouse moves, presses and releases;
- the file's removal (`Remove`);
- the close/reopen recovery (`Close`, `Reopen`).

`SolveCaptcha` is proved equal to the function `Solve`. `Solve` runs
`RunFrom` over the outcome of each attempt (`Steps`). The loop lemmas are
stated for any attempt outcomes that satisfy `EndsWell` and `CountsWell`,
and `StepsWellShaped` proves that the attempts of a real call do.

Consequences of the code as written that the model keeps:

- **Truncation, not floor.** `int()` at main.py lines 24-25 truncates
  toward zero, so a negative non-integer ratio is rounded up, not floored
  (`GapLocator.TruncTowardZero`).
- **Errors end the call.** Only the wait at main.py line 81 can raise inside
  the `try` (lines 80-89). A capture error or a `find_gap_position` error
  therefore propagates out of `solve_captcha` and ends the call; it is not
  turned into a retry. The call raises exactly the error of the first
  attempt that did not go on, when that attempt raised
  (`SolveController.RaisedIffFirstFailure`), and it returns false only
  when every attempt went on (`SolveController.FalseOnlyWhenExhausted`).
- **The temporary file can leak.** When `find_gap_position` raises, the
  `os.remove` at main.py line 77 is never reached and the file stays behind
  (`SolveController.TempFileLeakOnlyOnGapError`).
- **A falsy wait retries without recovery.** When the wait at line 81
  returns a falsy value instead of raising, the `if` at line 82 fails and
  the loop goes straight to the next attempt with no close/reopen.

## Model

| member | source | states |
|---|---|---|
| StyleUrl.Find | main.py:96 | -1 exactly when the separator occurs nowhere; otherwise an occurrence with none before it |
| StyleUrl.SplitJoin | main.py:96 | joining the pieces of `str.split(sep)` with `sep` gives back the original string |
| StyleUrl.SplitPiecesFree | main.py:96 | no piece of a split contains the separator |
| StyleUrl.ExtractUrl | main.py:96 | the `[1]` index raises `IndexError` exactly when the style has no `url("` |
| StyleUrl.ExtractUrlFails | main.py:96 | the extraction fails exactly when `url("` occurs nowhere, and then with `IndexError` |
| StyleUrl.UrlBodyMeaning | main.py:96 | cutting at the next `url("` and then at `")` keeps the longest prefix in which neither begins |
| StyleUrl.ExtractUrlMeaning | main.py:96 | the URL is the text after the first `url("`, up to the first `url("` or `")` that follows it, or to the end |
| StyleUrl.ExtractedUrlIsClean | main.py:96 | the extracted URL contains neither `")` nor `url("` |
| CropBackground.NonWhite | main.py:110 | the listed positions are exactly the in-range pixels whose grey level is not 255 |
| CropBackground.Min | main.py:111 | `np.min` returns an element that is at most every element |
| CropBackground.Max | main.py:111 | `np.max` returns an element that is at least every element |
| CropBackground.BoundingBox | main.py:107-111 | the reduction raises exactly when every pixel is white |
| CropBackground.BoundingBoxCovers | main.py:110-111 | every non-white pixel lies inside the box |
| CropBackground.BoundingBoxAttained | main.py:110-111 | each of the four edges of the box is touched by a non-white pixel |
| CropBackground.RectangleRoundTrip | main.py:110-111 | a screenshot whose content is exactly one rectangle yields that rectangle |
| GapLocator.ThresholdBinary | main.py:16 | same shape, only 0 and 255, and 255 exactly where the edge value is strictly above the threshold |
| GapLocator.ThresholdIdempotent | main.py:16 | thresholding the mask again at a level in [0, 255) changes nothing |
| GapLocator.MaxScan | main.py:18 | the left-to-right scan that replaces only on a strictly larger area ends at the first largest contour |
| GapLocator.LargestContour | main.py:18 | an empty contour list raises; otherwise the index is the first contour of maximal area |
| GapLocator.FirstLargestUnique | main.py:18 | the first largest contour is unique |
| GapLocator.Trunc | main.py:24-25 | `int()` of a float drops the fractional part toward zero |
| GapLocator.TruncTowardZero | main.py:24-25 | truncation is odd, and on negative non-integers it is the floor plus one |
| GapLocator.TruncationUnique | main.py:24-25 | a number has only one truncation |
| GapLocator.Centroid | main.py:19-26 | raises exactly when `m00 == 0`; otherwise the truncated ratios `m10/m00` and `m01/m00` |
| GapLocator.FindGapPosition | main.py:14-26 | raises on no contours, raises on a zero `m00` of the first largest contour, otherwise returns that contour's truncated centroid |
| DragPath.JitterSign | main.py:73-74 | the sign is +1 on even attempts and -1 on odd ones |
| DragPath.DragStart | main.py:71 | the first move is equidistant from the piece's left and right edges and from its top and bottom edges |
| DragPath.DragTarget | main.py:73-74 | less the jitter, the target is the piece's left edge minus 20 plus the gap column, at the start's height |
| DragPath.SignAlternates | main.py:73-74 | consecutive attempts have opposite signs; attempts two apart have equal signs |
| DragPath.ConsecutiveTargets | main.py:73-74 | consecutive targets differ by twice the jitter in each coordinate |
| DragPath.SameParitySameTarget | main.py:73-74 | attempts of the same parity aim at the same point |
| SolveController.CaptureBackground | main.py:92-111 | among the modelled errors, `_capture_background_image` raises only the URL's `IndexError` or the empty reduction |
| SolveController.CaptureBackgroundMeaning | main.py:92-111 | the capture raises `IndexError` exactly when the style has no `url("`, the empty reduction exactly when it has one but the screenshot is all white, and otherwise yields the screenshot's non-white bounding box |
| SolveController.GapOf | main.py:64-67 | `find_gap_position` raises only a localisation error |
| SolveController.CaptureBackgroundImage | main.py:92-105 | the imperative capture raises `IndexError` exactly when the style has no `url("`, the empty reduction exactly when the screenshot is all white, and otherwise returns its non-white bounding box |
| SolveController.Drag | main.py:71-76 | the mouse events are the move to the piece's centre, the press, the move to the jittered target and the release |
| SolveController.TryOnce | main.py:58-89 | one pass of the loop body ends as the attempt's specification says, with its events in order |
| SolveController.SolveCaptcha | main.py:56-90 | the loop's outcome and trace are those of `Solve` |
| SolveController.AttemptEnds | main.py:59-89 | an attempt raises what capture or localisation raise; otherwise it succeeds exactly on a found element and retries otherwise |
| SolveController.AttemptTraceOrder | main.py:59-89 | no event before the file exists; then the drag from the centre to the target and the removal; then close/reopen only after the wait raised |
| SolveController.DragCounts | main.py:71-89 | a completed drag holds one file, one press, one removal and no close; the recovery adds one close |
| SolveController.AttemptCounts | main.py:59-89 | at most one file per attempt, removed exactly when the piece was dragged, never on a raise; close exactly on a retry after the wait raised |
| SolveController.AttemptWellShaped | main.py:59-89 | an attempt whose collaborators raise only their own errors ends well and counts well |
| SolveController.StepsWellShaped | main.py:57-89 | every attempt of a call ends well and counts well |
| SolveController.AttemptsBounded | main.py:57 | at most `max_tries` files and drags; a non-positive `max_tries` returns false with no effect |
| SolveController.SolvedAtFirstFound | main.py:80-84 | success first seen on attempt `k` returns true, and the last event is that attempt's removal |
| SolveController.SolvedAtFirstFoundCounts | main.py:57-89 | success on attempt `k` follows exactly `k - i + 1` drags and one close per earlier raised wait |
| SolveController.SolvedIffFirstFound | main.py:57-90 | the call returns true exactly when some attempt within the budget succeeds after only retries |
| SolveController.ExhaustedReturnsFalse | main.py:57-90 | if every attempt retries, the call returns false after `max_tries` drags and one close per raised wait |
| SolveController.RaisedIffFirstFailure | main.py:57-89 | the call raises an error exactly when some attempt within the budget raises it after only retries, since only the wait is guarded |
| SolveController.FalseOnlyWhenExhausted | main.py:57-90 | the call returns false only when every attempt of the budget went on |
| SolveController.EndedByFirstNonRetry | main.py:57-90 | a raise of the call is the error of an attempt that raised after only retries, any such attempt's error is what the call raises, and false means every attempt went on |
| SolveController.TempFileLeakOnlyOnGapError | main.py:59-77 | every file is removed, except that a raise from `find_gap_position` leaves exactly one behind |
| SolveController.SolveCaptchaFacts | main.py:56-90 | for a whole call: the bound on files and drags, when it returns true, when it raises and what, that false means every attempt went on, and that one file is left behind exactly when localisation raised, none otherwise |

## Left out

- The Sobel edge detection (main.py lines 28-40) is not modelled. The edge map of each attempt is supplied by the oracle.
- `cv2.findContours`, `cv2.contourArea` and `cv2.moments` are not modelled. `contoursOf` supplies their results.
- The image library is not modelled: decoding PNG bytes, the grey-level conversion, and the crop itself (with its exclusive right and lower edges). The screenshot comes in as grey levels, and the model computes the box that `crop` receives.
- The browser calls are not modelled: the selector waits at main.py lines 60, 88 and 94, the sleeps, `query_selector`, `new_page`, `set_content`, `screenshot`, `context.close`, and the clicks. Exceptions raised by these calls are not modelled either. The success wait at line 81 is modelled: `Timeout` stands for any exception it raises, since the `except Exception` at line 85 catches them all.
- `get_attribute("style")` at main.py line 96 returns `None` when the element has no style attribute, and `.split` then raises `AttributeError`. The model's style is always a string, so this error is not modelled.
- `bounding_box()` at main.py line 69 returns `None` for an element that is not visible, and the subscript at line 71 then raises `TypeError` after the temporary file exists, which leaves that file behind as well. The model's piece box is always present, so this error and its leak are not modelled.
- `iframe.query_selector` at main.py line 62 returns `None` when the piece is gone by then, and `puzzle_piece.bounding_box()` at line 69 then raises `AttributeError` after the temporary file exists, which leaves that file behind too. The model's piece is always present, so this error and its leak are not modelled.
- SolveController.CaptureBackground: raises only `IndexError` or the empty reduction among the modelled errors; the `AttributeError` of a missing style attribute is not modelled (see above).
- SolveController.TempFileLeakOnlyOnGapError: holds among the modelled errors only; the `TypeError` of a missing piece box (main.py line 71) and the `AttributeError` of a missing piece (main.py lines 62 and 69) would also leave a file behind.
- Writing and deleting the temporary file are events in the ghost trace. No file system is modelled.
- `page.on("response", ...)`, `_handle_response` and `captured_data` are not modelled. They do not affect the loop's outcome.
- Console output (`print`) is not modelled.
- Real time is not modelled. The 3000 ms timeout appears only as the `Timeout` outcome of the wait.
- Floating-point rounding is not modelled. Box coordinates, moments, the jitter and `m10 / m00` are exact reals.
- Integer widths are not modelled. numpy's `uint8` grey levels and OpenCV's integer types are plain integers.
- `gap_y` is not used. The source computes it and ignores it.
- `PuzzleSolver.__init__` and its file path are not modelled. The edge map of the attempt stands in for the image at that path.
