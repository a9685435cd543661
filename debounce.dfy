/**
 * The traffic-light detector's debouncer. Each camera frame yields a
 * detection (a stop waypoint index and a light state); a state is acted on
 * only once it has been seen on enough consecutive frames, and until then the
 * index last committed is republished.
 */
module Debounce {
  import opened Options

  /** The light states of the traffic-light message. */
  datatype LightState = Red | Yellow | Green | Unknown

  /** Number of repeats of a state after which it is committed. */
  const STATE_COUNT_THRESHOLD: int := 3

  /** One frame's detection: the stop waypoint index (-1 for none) and the light state. */
  datatype Detection = Detection(lightWp: int, state: LightState)

  /** The debouncer's fields: the state being counted, how often it was seen, and what was last committed. */
  datatype Debouncer = Debouncer(state: LightState, stateCount: int, lastWp: int, lastState: LightState)

  /** The state of a freshly started node. */
  function Initial(): Debouncer
  {
    Debouncer(Unknown, 0, -1, Unknown)
  }

  /** The index committed for a detection: its stop index when red, -1 otherwise. */
  function CommitValue(det: Detection): int
  {
    if det.state == Red then det.lightWp else -1
  }

  /** The fields after a frame and what the frame publishes (None: nothing). */
  datatype StepResult = StepResult(next: Debouncer, published: Option<int>)

  /**
   * One frame. A changed state restarts the count and publishes nothing; a
   * repeated state seen at least STATE_COUNT_THRESHOLD times before is
   * committed and published; otherwise the last committed index is
   * republished. The count then grows by one.
   */
  function Step(s: Debouncer, det: Detection): StepResult
  {
    if s.state != det.state then
      StepResult(s.(state := det.state, stateCount := 0 + 1), None)
    else if s.stateCount >= STATE_COUNT_THRESHOLD then
      var wp := CommitValue(det);
      StepResult(s.(lastState := s.state, lastWp := wp, stateCount := s.stateCount + 1), Some(wp))
    else
      StepResult(s.(stateCount := s.stateCount + 1), Some(s.lastWp))
  }

  /** The fields after the frames `h`, in order, starting from `s`. */
  function Run(s: Debouncer, h: seq<Detection>): Debouncer
    decreases |h|
  {
    if h == [] then s else Step(Run(s, h[..|h| - 1]), h[|h| - 1]).next
  }

  /** What frame `k` of `h` publishes, starting from `s`. */
  function Output(s: Debouncer, h: seq<Detection>, k: nat): Option<int>
    requires k < |h|
  {
    Step(Run(s, h[..k]), h[k]).published
  }

  /** The state of the last frame, or Unknown before any frame. */
  function LastState(h: seq<Detection>): LightState
  {
    if h == [] then Unknown else h[|h| - 1].state
  }

  /** How many frames at the end of `h` carry the last frame's state. */
  function Streak(h: seq<Detection>): nat
    decreases |h|
  {
    if |h| == 0 then 0
    else if |h| == 1 || h[|h| - 2].state != h[|h| - 1].state then 1
    else Streak(h[..|h| - 1]) + 1
  }

  /** Frames `k - 3 .. k` of `h` all carry the same state. */
  predicate FourInARow(h: seq<Detection>, k: nat)
    requires k < |h|
  {
    k >= 3 && h[k - 3].state == h[k - 2].state == h[k - 1].state == h[k].state
  }

  /**
   * From the initial state, the count is the number of consecutive frames,
   * at the end of the history, that carry the current state.
   */
  lemma {:induction false} RunCountsStreak(h: seq<Detection>)
    ensures Run(Initial(), h).state == LastState(h)
    ensures Run(Initial(), h).stateCount == Streak(h)
    decreases |h|
  {
    if h != [] {
      var prefix := h[..|h| - 1];
      RunCountsStreak(prefix);
      if |h| >= 2 {
        assert prefix[|prefix| - 1] == h[|h| - 2];
      }
    }
  }

  /** A streak of at least three means the last three frames agree. */
  lemma StreakAtLeastThree(h: seq<Detection>)
    ensures Streak(h) >= 3 <==>
      |h| >= 3 && h[|h| - 3].state == h[|h| - 2].state == h[|h| - 1].state
  {
    if |h| >= 2 {
      var h1 := h[..|h| - 1];
      assert h1[|h1| - 1] == h[|h| - 2];
      if |h| >= 3 {
        var h2 := h1[..|h1| - 1];
        assert h2[|h2| - 1] == h[|h| - 3];
        assert h1[|h1| - 2] == h[|h| - 3];
      }
      if |h1| >= 2 {
        assert h1[|h1| - 2] == h[|h| - 3];
      }
    }
  }

  /**
   * The debouncer from a fresh start, frame by frame: frame `k` commits (and
   * publishes) its own value exactly when it and the three frames before it
   * carry the same state, so a new state takes effect on its fourth
   * consecutive frame. Any other frame leaves the committed index and state
   * alone and publishes nothing when its state differs from the previous
   * frame's (Unknown before the first frame), else the committed index.
   */
  lemma DebounceFrames(h: seq<Detection>, k: nat)
    requires k < |h|
    ensures var before := Run(Initial(), h[..k]);
      var after := Run(Initial(), h[..k + 1]);
      if FourInARow(h, k) then
        && Output(Initial(), h, k) == Some(CommitValue(h[k]))
        && after.lastWp == CommitValue(h[k]) && after.lastState == h[k].state
      else
        && after.lastWp == before.lastWp && after.lastState == before.lastState
        && Output(Initial(), h, k) == (if h[k].state != LastState(h[..k]) then None else Some(before.lastWp))
  {
    var prefix := h[..k];
    assert h[..k + 1][..k] == prefix;
    RunCountsStreak(prefix);
    StreakAtLeastThree(prefix);
    if k >= 3 {
      assert prefix[k - 3] == h[k - 3] && prefix[k - 2] == h[k - 2] && prefix[k - 1] == h[k - 1];
    }
  }

  /** The committed index is -1 or the stop index of a red detection that was received. */
  lemma {:induction false} CommittedIsRed(h: seq<Detection>)
    ensures var wp := Run(Initial(), h).lastWp;
      wp == -1 || exists i :: 0 <= i < |h| && h[i].state == Red && h[i].lightWp == wp
    decreases |h|
  {
    if h != [] {
      var prefix := h[..|h| - 1];
      CommittedIsRed(prefix);
      var wp := Run(Initial(), prefix).lastWp;
      if wp != -1 {
        var i :| 0 <= i < |prefix| && prefix[i].state == Red && prefix[i].lightWp == wp;
        assert h[i] == prefix[i];
      }
    }
  }
}
