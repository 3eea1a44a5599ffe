/** The retry loop of `CaptchaSolver.solve_captcha` (main.py lines 56-90).

    The browser and the file system are replaced by an oracle `world` that
    says, for each attempt index, what the collaborators produce: the
    background element's `style` attribute, the screenshot of the image it
    names, the Sobel edge map of the cropped screenshot, the puzzle piece's
    bounding box and the outcome of the 3000 ms wait for the success
    element. `contoursOf` stands for `cv2.findContours`. Every call with an
    effect outside the program is recorded in a ghost trace of events. */
module SolveController {
  import opened Common
  import StyleUrl
  import CropBackground
  import opened GapLocator
  import opened DragPath

  /** The outcome of `wait_for_selector(success_item_selector, timeout=3000)`:
      a truthy element, a falsy return, or any exception raised by the wait
      (a timeout or otherwise), all of which the `except Exception` at
      main.py line 85 catches. */
  datatype Wait = Found | Falsy | Timeout

  /** What the collaborators produce on one attempt. */
  datatype Attempt = Attempt(style: string, screenshot: Grid, edges: Grid, piece: Box, wait: Wait)

  /** The effects the loop has on the outside world, in order:
      the cropped screenshot written to a temporary file, the mouse, the
      removal of the temporary file, and the close/reopen recovery. */
  datatype Event = Capture | Move(to: Point) | Down | Up | Remove | Close | Reopen

  /** What a call of `solve_captcha` ends with: a returned boolean or a
      propagated exception. */
  datatype Outcome = Returned(solved: bool) | Raised(error: Error)

  /** How one attempt ends: go on to the next index, return true, or raise. */
  datatype Next = Retry | Solved | Failed(error: Error)

  /** The events of one attempt and how it ends. */
  datatype Step = Step(events: seq<Event>, next: Next)

  /** The outcome of a whole call and the events it caused. */
  datatype Transcript = Transcript(outcome: Outcome, trace: seq<Event>)

  /** The errors `_capture_background_image` lets escape. */
  predicate IsCaptureError(e: Error)
  {
    e == IndexError || e == EmptyReduction
  }

  /** The errors `find_gap_position` lets escape. */
  predicate IsGapError(e: Error)
  {
    e == EmptyMax || e == NoGapPosition
  }

  /** `_capture_background_image` (main.py lines 92-105) up to the temporary
      file: the URL is cut out of the style, then the screenshot's
      non-white bounding box is taken. */
  function CaptureBackground(a: Attempt): (r: Result<CropBackground.BBox>)
    ensures r.Err? ==> IsCaptureError(r.error)
  {
    match StyleUrl.ExtractUrl(a.style)
    case Err(e) => Err(e)
    case Ok(_) => CropBackground.BoundingBox(a.screenshot)
  }

  /** The capture raises `IndexError` exactly when the style holds no
      `url("`, raises the empty reduction exactly when it does but the
      screenshot is all white, and otherwise yields the screenshot's
      non-white bounding box. */
  lemma CaptureBackgroundMeaning(a: Attempt)
    ensures CaptureBackground(a) == Err(IndexError) <==> !StyleUrl.Contains(a.style, StyleUrl.UrlOpen)
    ensures CaptureBackground(a) == Err(EmptyReduction) <==>
              StyleUrl.Contains(a.style, StyleUrl.UrlOpen) && forall p :: !CropBackground.IsContent(a.screenshot, p)
    ensures CaptureBackground(a).Ok? ==> CaptureBackground(a) == CropBackground.BoundingBox(a.screenshot)
  {
    StyleUrl.ExtractUrlFails(a.style);
  }

  /** The gap `find_gap_position()` reports on this attempt, with its
      default threshold. */
  function GapOf(a: Attempt, contoursOf: Grid -> seq<Contour>): (r: Result<Position>)
    ensures r.Err? ==> IsGapError(r.error)
  {
    FindGapPosition(a.edges, DefaultThreshold, contoursOf)
  }

  /** The mouse events of the drag on attempt `i`. */
  function DragEvents(piece: Box, gap: Position, jitter: real, i: nat): seq<Event>
  {
    [Move(DragStart(piece)), Down, Move(DragTarget(piece, gap.x, jitter, i)), Up]
  }

  /** One iteration of the loop body (main.py lines 58-89) on attempt `i`,
      given what the capture and the gap search produce, the piece's box and
      the outcome of the wait. The gap search only matters once the capture
      has succeeded. */
  function AttemptStep(captured: Result<CropBackground.BBox>, gap: Result<Position>, piece: Box, wait: Wait, jitter: real, i: nat): Step
  {
    match captured
    case Err(e) => Step([], Failed(e))
    case Ok(_) =>
      match gap
      case Err(e) => Step([Capture], Failed(e))
      case Ok(g) =>
        var drag := [Capture] + DragEvents(piece, g, jitter, i) + [Remove];
        match wait
        case Found => Step(drag, Solved)
        case Falsy => Step(drag, Retry)
        case Timeout => Step(drag + [Close, Reopen], Retry)
  }

  /** How attempt `k` of the call ends. */
  function StepAt(world: nat -> Attempt, contoursOf: Grid -> seq<Contour>, jitter: real, k: nat): Step
  {
    var a := world(k);
    AttemptStep(CaptureBackground(a), GapOf(a, contoursOf), a.piece, a.wait, jitter, k)
  }

  /** How each attempt of a call ends, by index. */
  function Steps(world: nat -> Attempt, contoursOf: Grid -> seq<Contour>, jitter: real): nat -> Step
  {
    (k: nat) => StepAt(world, contoursOf, jitter, k)
  }

  /** The loop from attempt `i` on, given how each attempt ends. */
  function RunFrom(steps: nat -> Step, maxTries: int, i: nat): Transcript
    decreases maxTries - i
  {
    if maxTries <= i then Transcript(Returned(false), [])
    else
      var s := steps(i);
      match s.next
      case Solved => Transcript(Returned(true), s.events)
      case Failed(e) => Transcript(Raised(e), s.events)
      case Retry =>
        var rest := RunFrom(steps, maxTries, i + 1);
        Transcript(rest.outcome, s.events + rest.trace)
  }

  /** The whole call: `for _ in range(max_tries)`. */
  function Solve(world: nat -> Attempt, contoursOf: Grid -> seq<Contour>, jitter: real, maxTries: int): Transcript
  {
    RunFrom(Steps(world, contoursOf, jitter), maxTries, 0)
  }

  /** `_capture_background_image` up to the temporary file: the URL cut,
      then the bounding box, either of which may raise. */
  method CaptureBackgroundImage(a: Attempt) returns (r: Result<CropBackground.BBox>)
    ensures r == Err(IndexError) <==> !StyleUrl.Contains(a.style, StyleUrl.UrlOpen)
    ensures r == Err(EmptyReduction) <==>
              StyleUrl.Contains(a.style, StyleUrl.UrlOpen) && forall p :: !CropBackground.IsContent(a.screenshot, p)
    ensures r.Ok? ==> r == CropBackground.BoundingBox(a.screenshot)
    ensures r == CaptureBackground(a)
  {
    CaptureBackgroundMeaning(a);
    var url := StyleUrl.ExtractUrl(a.style);
    if url.Err? {
      return Err(url.error);
    }
    r := CropBackground.BoundingBox(a.screenshot);
  }

  /** The drag of main.py lines 71-75: press at the piece's centre, move
      to the jittered target, release. */
  method Drag(piece: Box, gap: Position, jitter: real, i: nat) returns (ghost events: seq<Event>)
    ensures events == DragEvents(piece, gap, jitter, i)
  {
    var start := DragStart(piece);
    events := [Move(start)];
    events := events + [Down];
    var target := DragTarget(piece, gap.x, jitter, i);
    events := events + [Move(target)];
    events := events + [Up];
  }

  /** One pass of the loop body (main.py lines 58-89) on attempt `i`: how
      it ends and the events it causes. */
  method TryOnce(world: nat -> Attempt, contoursOf: Grid -> seq<Contour>, jitter: real, i: nat)
    returns (next: Next, ghost events: seq<Event>)
    ensures next == Steps(world, contoursOf, jitter)(i).next
    ensures events == Steps(world, contoursOf, jitter)(i).events
  {
    var a := world(i);
    events := [];
    var captured := CaptureBackgroundImage(a);
    if captured.Err? {
      return Failed(captured.error), events;
    }
    events := [Capture];
    // find_gap_position raises out of the loop, leaving the file behind
    var gap := FindGapPosition(a.edges, DefaultThreshold, contoursOf);
    if gap.Err? {
      return Failed(gap.error), events;
    }
    var drag := Drag(a.piece, gap.value, jitter, i);
    events := events + drag;
    events := events + [Remove];
    // only the wait can raise inside the try
    match a.wait {
      case Found =>
        next := Solved;
      case Falsy =>
        next := Retry;
      case Timeout =>
        events := events + [Close, Reopen];
        next := Retry;
    }
  }

  /** One pass of the loop keeps the loop invariant of `SolveCaptcha`, or
      completes the transcript. */
  lemma RunFromStep(steps: nat -> Step, maxTries: int, i: nat, total: Transcript, trace: seq<Event>, events: seq<Event>, next: Next)
    requires i < maxTries && steps(i) == Step(events, next)
    requires var rest := RunFrom(steps, maxTries, i); total == Transcript(rest.outcome, trace + rest.trace)
    ensures next == Solved ==> total == Transcript(Returned(true), trace + events)
    ensures next.Failed? ==> total == Transcript(Raised(next.error), trace + events)
    ensures next == Retry ==>
              var rest := RunFrom(steps, maxTries, i + 1);
              total == Transcript(rest.outcome, (trace + events) + rest.trace)
  {
    if next == Retry {
      var rest := RunFrom(steps, maxTries, i + 1);
      assert trace + (events + rest.trace) == (trace + events) + rest.trace;
    }
  }

  /** `solve_captcha` as the source runs it, one collaborator call after
      another. The source's defaults are a jitter of 5 and 5 tries. */
  method SolveCaptcha(world: nat -> Attempt, contoursOf: Grid -> seq<Contour>, jitter: real, maxTries: int)
    returns (outcome: Outcome, ghost trace: seq<Event>)
    ensures outcome == Solve(world, contoursOf, jitter, maxTries).outcome
    ensures trace == Solve(world, contoursOf, jitter, maxTries).trace
  {
    trace := [];
    ghost var steps := Steps(world, contoursOf, jitter);
    var i: nat := 0;
    while i < maxTries
      invariant var rest := RunFrom(steps, maxTries, i);
                Solve(world, contoursOf, jitter, maxTries) == Transcript(rest.outcome, trace + rest.trace)
      decreases maxTries - i
    {
      var next, events := TryOnce(world, contoursOf, jitter, i);
      RunFromStep(steps, maxTries, i, Solve(world, contoursOf, jitter, maxTries), trace, events, next);
      trace := trace + events;
      match next {
        case Solved =>
          outcome := Returned(true);
          return;
        case Failed(e) =>
          outcome := Raised(e);
          return;
        case Retry =>
      }
      i := i + 1;
    }
    outcome := Returned(false);
  }

  // ---------------------------------------------------------------------
  // Counting events

  /** How many times `e` occurs in `t`. */
  function Count(t: seq<Event>, e: Event): nat
  {
    multiset(t)[e]
  }

  /** The number of attempts in `[i, k)` whose wait timed out. */
  function Timeouts(world: nat -> Attempt, i: nat, k: int): nat
    decreases k - i
  {
    if k <= i then 0 else (if world(i).wait == Timeout then 1 else 0) + Timeouts(world, i + 1, k)
  }

  /** Every attempt in `[i, k)` went on to the next index. */
  predicate RetriesUntil(steps: nat -> Step, i: nat, k: int)
  {
    forall j: nat :: i <= j < k ==> steps(j).next == Retry
  }

  // ---------------------------------------------------------------------
  // One attempt

  /** How an attempt ends: it raises what capture or localisation raise,
      and otherwise the wait decides between success and the next attempt. */
  lemma AttemptEnds(captured: Result<CropBackground.BBox>, gap: Result<Position>, piece: Box, wait: Wait, jitter: real, i: nat)
    ensures var s := AttemptStep(captured, gap, piece, wait, jitter, i);
            && (captured.Err? ==> s.next == Failed(captured.error))
            && (captured.Ok? && gap.Err? ==> s.next == Failed(gap.error))
            && (captured.Ok? && gap.Ok? ==> (s.next == Solved <==> wait == Found) && (s.next == Retry <==> wait != Found))
  {
  }

  /** The order of an attempt's events: nothing before the temporary file
      exists; then the drag from the piece's centre to the jittered target
      and the removal of the file; then the close/reopen recovery, only when
      the wait timed out. */
  lemma AttemptTraceOrder(captured: Result<CropBackground.BBox>, gap: Result<Position>, piece: Box, wait: Wait, jitter: real, i: nat)
    ensures var s := AttemptStep(captured, gap, piece, wait, jitter, i);
            && (captured.Err? ==> s.events == [])
            && (captured.Ok? && gap.Err? ==> s.events == [Capture])
            && (captured.Ok? && gap.Ok? ==>
                  && s.events[..6] == [Capture, Move(DragStart(piece)), Down,
                                       Move(DragTarget(piece, gap.value.x, jitter, i)), Up, Remove]
                  && s.events[6..] == (if wait == Timeout then [Close, Reopen] else []))
  {
  }

  /** The drag events hold one file, one press and one removal, and no
      recovery; the recovery adds one Close. */
  lemma DragCounts(piece: Box, gap: Position, jitter: real, i: nat)
    ensures var d := [Capture] + DragEvents(piece, gap, jitter, i) + [Remove];
            && Count(d, Capture) == 1 && Count(d, Down) == 1 && Count(d, Remove) == 1 && Count(d, Close) == 0
            && Count(d + [Close, Reopen], Capture) == 1 && Count(d + [Close, Reopen], Down) == 1
            && Count(d + [Close, Reopen], Remove) == 1 && Count(d + [Close, Reopen], Close) == 1
  {
  }

  /** Per attempt: at most one temporary file and one drag, the file is
      removed exactly when the drag happened, and Close happens exactly when
      the attempt retries after a timeout. */
  lemma AttemptCounts(captured: Result<CropBackground.BBox>, gap: Result<Position>, piece: Box, wait: Wait, jitter: real, i: nat)
    ensures var s := AttemptStep(captured, gap, piece, wait, jitter, i);
            && Count(s.events, Capture) <= 1
            && Count(s.events, Down) == Count(s.events, Remove)
            && (s.next.Failed? ==> Count(s.events, Remove) == 0)
            && (!s.next.Failed? ==> Count(s.events, Down) == 1 && Count(s.events, Capture) == 1)
            && (s.next.Failed? ==> Count(s.events, Capture) == (if captured.Ok? then 1 else 0))
            && Count(s.events, Close) == (if s.next == Retry && wait == Timeout then 1 else 0)
  {
    if captured.Ok? && gap.Ok? {
      DragCounts(piece, gap.value, jitter, i);
    }
  }

  /** How an attempt that ends with `s` after the wait produced `wait`
      may end: success only on a found element, with the removal of the
      file as the last event; a retry only without one; a raise only of a
      capture or localisation error. */
  predicate EndsWell(s: Step, wait: Wait)
  {
    && (s.next == Solved ==> wait == Found && |s.events| > 0 && s.events[|s.events| - 1] == Remove)
    && (s.next == Retry ==> wait != Found)
    && (s.next.Failed? ==> IsCaptureError(s.next.error) || IsGapError(s.next.error))
  }

  /** The events of such an attempt: at most one temporary file, removed
      exactly when the drag happened and never on a raise, left behind only
      by a localisation error; Close exactly on a retry after a timeout. */
  predicate CountsWell(s: Step, wait: Wait)
  {
    && Count(s.events, Capture) <= 1
    && Count(s.events, Down) == Count(s.events, Remove)
    && (s.next.Failed? ==> Count(s.events, Remove) == 0)
    && (s.next.Failed? ==> Count(s.events, Capture) == (if IsGapError(s.next.error) then 1 else 0))
    && (!s.next.Failed? ==> Count(s.events, Down) == 1 && Count(s.events, Capture) == 1)
    && Count(s.events, Close) == (if s.next == Retry && wait == Timeout then 1 else 0)
  }

  /** Every attempt ends well. */
  ghost predicate AllEndWell(steps: nat -> Step, world: nat -> Attempt)
  {
    forall k: nat :: EndsWell(steps(k), world(k).wait)
  }

  /** Every attempt counts well. */
  ghost predicate AllCountWell(steps: nat -> Step, world: nat -> Attempt)
  {
    forall k: nat :: CountsWell(steps(k), world(k).wait)
  }

  /** An attempt whose capture raises only capture errors and whose gap
      search raises only localisation errors ends and counts well. */
  lemma AttemptWellShaped(captured: Result<CropBackground.BBox>, gap: Result<Position>, piece: Box, wait: Wait, jitter: real, i: nat)
    requires captured.Err? ==> IsCaptureError(captured.error)
    requires gap.Err? ==> IsGapError(gap.error)
    ensures EndsWell(AttemptStep(captured, gap, piece, wait, jitter, i), wait)
    ensures CountsWell(AttemptStep(captured, gap, piece, wait, jitter, i), wait)
  {
    AttemptCounts(captured, gap, piece, wait, jitter, i);
    AttemptEnds(captured, gap, piece, wait, jitter, i);
    AttemptTraceOrder(captured, gap, piece, wait, jitter, i);
  }

  /** Every attempt of a call ends and counts well. */
  lemma StepsWellShaped(world: nat -> Attempt, contoursOf: Grid -> seq<Contour>, jitter: real)
    ensures AllEndWell(Steps(world, contoursOf, jitter), world)
    ensures AllCountWell(Steps(world, contoursOf, jitter), world)
  {
    forall k: nat
      ensures EndsWell(Steps(world, contoursOf, jitter)(k), world(k).wait)
      ensures CountsWell(Steps(world, contoursOf, jitter)(k), world(k).wait)
    {
      var a := world(k);
      AttemptWellShaped(CaptureBackground(a), GapOf(a, contoursOf), a.piece, a.wait, jitter, k);
    }
  }

  // ---------------------------------------------------------------------
  // The whole loop, for any attempts that end and count well
  // (`StepsWellShaped` shows that those of a call do)

  /** No more than `max_tries` attempts capture an image or drag, and a
      non-positive `max_tries` returns false without any effect. */
  lemma {:induction false} AttemptsBounded(steps: nat -> Step, world: nat -> Attempt, maxTries: int, i: nat)
    requires AllCountWell(steps, world)
    ensures var t := RunFrom(steps, maxTries, i);
            && Count(t.trace, Capture) <= (if i <= maxTries then maxTries - i else 0)
            && Count(t.trace, Down) <= (if i <= maxTries then maxTries - i else 0)
            && (maxTries <= i ==> t == Transcript(Returned(false), []))
    decreases maxTries - i
  {
    if i < maxTries {
      var s := steps(i);
      assert CountsWell(s, world(i).wait);
      if s.next == Retry {
        AttemptsBounded(steps, world, maxTries, i + 1);
        var rest := RunFrom(steps, maxTries, i + 1);
        assert RunFrom(steps, maxTries, i).trace == s.events + rest.trace;
      }
    }
  }

  /** When the success element shows up first on attempt `k`, the call
      returns true there, and its last event is the removal of attempt
      `k`'s file. */
  lemma {:induction false} SolvedAtFirstFound(steps: nat -> Step, world: nat -> Attempt, maxTries: int, i: nat, k: nat)
    requires AllEndWell(steps, world)
    requires i <= k < maxTries
    requires RetriesUntil(steps, i, k)
    requires steps(k).next == Solved
    ensures var t := RunFrom(steps, maxTries, i);
            && t.outcome == Returned(true)
            && |t.trace| > 0 && t.trace[|t.trace| - 1] == Remove
    decreases k - i
  {
    var s := steps(i);
    var t := RunFrom(steps, maxTries, i);
    if i < k {
      assert s.next == Retry;
      var rest := RunFrom(steps, maxTries, i + 1);
      SolvedAtFirstFound(steps, world, maxTries, i + 1, k);
      assert t == Transcript(rest.outcome, s.events + rest.trace);
      assert t.trace[|t.trace| - 1] == rest.trace[|rest.trace| - 1];
    } else {
      assert EndsWell(s, world(i).wait);
      assert t == Transcript(Returned(true), s.events);
    }
  }

  /** A call that succeeds first on attempt `k` made `k - i + 1` drags and
      one close/reopen per earlier timeout. */
  lemma {:induction false} SolvedAtFirstFoundCounts(steps: nat -> Step, world: nat -> Attempt, maxTries: int, i: nat, k: nat)
    requires AllCountWell(steps, world)
    requires i <= k < maxTries
    requires RetriesUntil(steps, i, k)
    requires steps(k).next == Solved
    ensures var t := RunFrom(steps, maxTries, i);
            && Count(t.trace, Down) == k - i + 1
            && Count(t.trace, Close) == Timeouts(world, i, k)
    decreases k - i
  {
    var s := steps(i);
    var t := RunFrom(steps, maxTries, i);
    assert CountsWell(s, world(i).wait);
    if i < k {
      assert s.next == Retry;
      var rest := RunFrom(steps, maxTries, i + 1);
      SolvedAtFirstFoundCounts(steps, world, maxTries, i + 1, k);
      assert t.trace == s.events + rest.trace;
    } else {
      assert t.trace == s.events;
    }
  }

  /** The call returns true exactly when some attempt within the budget
      sees the success element and every attempt before it went on. */
  lemma {:induction false} SolvedIffFirstFound(steps: nat -> Step, world: nat -> Attempt, maxTries: int, i: nat)
    requires AllEndWell(steps, world)
    ensures RunFrom(steps, maxTries, i).outcome == Returned(true) <==>
            exists k: nat :: i <= k < maxTries && RetriesUntil(steps, i, k) && steps(k).next == Solved
    decreases maxTries - i
  {
    var t := RunFrom(steps, maxTries, i);
    if t.outcome == Returned(true) {
      assert i < maxTries;
      var s := steps(i);
      if s.next == Solved {
        assert RetriesUntil(steps, i, i);
      } else {
        assert s.next == Retry;
        SolvedIffFirstFound(steps, world, maxTries, i + 1);
        var k: nat :| i + 1 <= k < maxTries && RetriesUntil(steps, i + 1, k) && steps(k).next == Solved;
        assert RetriesUntil(steps, i, k);
      }
    } else {
      forall k: nat | i <= k < maxTries && RetriesUntil(steps, i, k)
        ensures steps(k).next != Solved
      {
        if steps(k).next == Solved {
          SolvedAtFirstFound(steps, world, maxTries, i, k);
        }
      }
    }
  }

  /** When no attempt raises or sees the success element, the call makes
      exactly `max_tries - i` drags, one close/reopen per timeout, and
      returns false. */
  lemma {:induction false} ExhaustedReturnsFalse(steps: nat -> Step, world: nat -> Attempt, maxTries: int, i: nat)
    requires AllCountWell(steps, world)
    requires RetriesUntil(steps, i, maxTries)
    ensures var t := RunFrom(steps, maxTries, i);
            && t.outcome == Returned(false)
            && Count(t.trace, Down) == (if i <= maxTries then maxTries - i else 0)
            && Count(t.trace, Close) == Timeouts(world, i, maxTries)
    decreases maxTries - i
  {
    if i < maxTries {
      var s := steps(i);
      assert s.next == Retry && CountsWell(s, world(i).wait);
      ExhaustedReturnsFalse(steps, world, maxTries, i + 1);
      var rest := RunFrom(steps, maxTries, i + 1);
      assert RunFrom(steps, maxTries, i).trace == s.events + rest.trace;
    }
  }

  /** Attempts that all went on up to `k` cannot pass an attempt that did
      not. */
  lemma NoRetryPast(steps: nat -> Step, i: nat, k: nat)
    requires steps(i).next != Retry && RetriesUntil(steps, i, k)
    ensures k <= i
  {
  }

  /** The call raises `e` exactly when some attempt within the budget
      raises `e` and every attempt before it went on: only the wait is
      guarded by the `try`, so a capture or localisation error ends the
      call. */
  lemma {:induction false} RaisedIffFirstFailure(steps: nat -> Step, maxTries: int, i: nat, e: Error)
    ensures RunFrom(steps, maxTries, i).outcome == Raised(e) <==>
            exists k: nat :: i <= k < maxTries && RetriesUntil(steps, i, k) && steps(k).next == Failed(e)
    decreases maxTries - i
  {
    if i < maxTries {
      var s := steps(i);
      match s.next
      case Solved =>
        forall k: nat | i <= k < maxTries && RetriesUntil(steps, i, k)
          ensures steps(k).next != Failed(e)
        {
          NoRetryPast(steps, i, k);
        }
      case Failed(e') =>
        if e' == e {
          assert RetriesUntil(steps, i, i);
        } else {
          forall k: nat | i <= k < maxTries && RetriesUntil(steps, i, k)
            ensures steps(k).next != Failed(e)
          {
            NoRetryPast(steps, i, k);
          }
        }
      case Retry =>
        RaisedIffFirstFailure(steps, maxTries, i + 1, e);
        if RunFrom(steps, maxTries, i).outcome == Raised(e) {
          var k: nat :| i + 1 <= k < maxTries && RetriesUntil(steps, i + 1, k) && steps(k).next == Failed(e);
          assert RetriesUntil(steps, i, k);
        } else {
          forall k: nat | i <= k < maxTries && RetriesUntil(steps, i, k)
            ensures steps(k).next != Failed(e)
          {
            if k > i {
              assert RetriesUntil(steps, i + 1, k);
            }
          }
        }
    }
  }

  /** The call returns false only after every attempt of the budget went
      on: never after an attempt raised or saw the success element. */
  lemma {:induction false} FalseOnlyWhenExhausted(steps: nat -> Step, maxTries: int, i: nat)
    ensures RunFrom(steps, maxTries, i).outcome == Returned(false) ==> RetriesUntil(steps, i, maxTries)
    decreases maxTries - i
  {
    if i < maxTries && steps(i).next == Retry {
      FalseOnlyWhenExhausted(steps, maxTries, i + 1);
    }
  }

  /** How a run ends, read off its first attempt that did not go on: a
      raise is that attempt's error, and false means there was none. */
  lemma EndedByFirstNonRetry(steps: nat -> Step, maxTries: int)
    ensures var t := RunFrom(steps, maxTries, 0);
            && (t.outcome.Raised? ==>
                  exists k: nat :: k < maxTries && RetriesUntil(steps, 0, k) && steps(k).next == Failed(t.outcome.error))
            && (forall k: nat :: k < maxTries && RetriesUntil(steps, 0, k) && steps(k).next.Failed? ==>
                  t.outcome == Raised(steps(k).next.error))
            && (t.outcome == Returned(false) ==> RetriesUntil(steps, 0, maxTries))
  {
    var t := RunFrom(steps, maxTries, 0);
    FalseOnlyWhenExhausted(steps, maxTries, 0);
    if t.outcome.Raised? {
      RaisedIffFirstFailure(steps, maxTries, 0, t.outcome.error);
    }
    forall k: nat | k < maxTries && RetriesUntil(steps, 0, k) && steps(k).next.Failed?
      ensures t.outcome == Raised(steps(k).next.error)
    {
      RaisedIffFirstFailure(steps, maxTries, 0, steps(k).next.error);
    }
  }

  /** The temporary file of every attempt is removed, except when
      `find_gap_position` raises: that exception escapes before `os.remove`
      and leaves exactly one file behind. A capture error escapes before
      any file exists. */
  lemma {:induction false} TempFileLeakOnlyOnGapError(steps: nat -> Step, world: nat -> Attempt, maxTries: int, i: nat)
    requires AllEndWell(steps, world) && AllCountWell(steps, world)
    ensures var t := RunFrom(steps, maxTries, i);
            && (t.outcome.Returned? ==> Count(t.trace, Capture) == Count(t.trace, Remove))
            && (t.outcome.Raised? && IsCaptureError(t.outcome.error) ==> Count(t.trace, Capture) == Count(t.trace, Remove))
            && (t.outcome.Raised? && IsGapError(t.outcome.error) ==> Count(t.trace, Capture) == Count(t.trace, Remove) + 1)
    decreases maxTries - i
  {
    if i < maxTries {
      var s := steps(i);
      assert EndsWell(s, world(i).wait) && CountsWell(s, world(i).wait);
      if s.next == Retry {
        TempFileLeakOnlyOnGapError(steps, world, maxTries, i + 1);
        var rest := RunFrom(steps, maxTries, i + 1);
        assert RunFrom(steps, maxTries, i).trace == s.events + rest.trace;
      }
    }
  }

  /** The loop lemmas for a whole call of `solve_captcha`: at most
      `max_tries` temporary files and drags; true exactly when some attempt
      in budget sees the success element after only retries; a raise
      exactly when some attempt in budget raised after only retries; false
      only when every attempt went on; every file removed unless
      `find_gap_position` raised, which leaves one. */
  lemma SolveCaptchaFacts(world: nat -> Attempt, contoursOf: Grid -> seq<Contour>, jitter: real, maxTries: int)
    ensures var t, steps := Solve(world, contoursOf, jitter, maxTries), Steps(world, contoursOf, jitter);
            && Count(t.trace, Capture) <= (if 0 <= maxTries then maxTries else 0)
            && Count(t.trace, Down) <= (if 0 <= maxTries then maxTries else 0)
            && (t.outcome == Returned(true) <==>
                  exists k: nat :: k < maxTries && RetriesUntil(steps, 0, k) && steps(k).next == Solved)
            && (t.outcome.Raised? && IsGapError(t.outcome.error) <==>
                  Count(t.trace, Capture) == Count(t.trace, Remove) + 1)
            && (!(t.outcome.Raised? && IsGapError(t.outcome.error)) ==>
                  Count(t.trace, Capture) == Count(t.trace, Remove))
            && (t.outcome.Raised? ==>
                  exists k: nat :: k < maxTries && RetriesUntil(steps, 0, k) && steps(k).next == Failed(t.outcome.error))
            && (forall k: nat :: k < maxTries && RetriesUntil(steps, 0, k) && steps(k).next.Failed? ==>
                  t.outcome == Raised(steps(k).next.error))
            && (t.outcome == Returned(false) ==> RetriesUntil(steps, 0, maxTries))
  {
    var steps := Steps(world, contoursOf, jitter);
    StepsWellShaped(world, contoursOf, jitter);
    AttemptsBounded(steps, world, maxTries, 0);
    SolvedIffFirstFound(steps, world, maxTries, 0);
    TempFileLeakOnlyOnGapError(steps, world, maxTries, 0);
    EndedByFirstNonRetry(steps, maxTries);
  }
}
