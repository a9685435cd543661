/**
 * The traffic-light detector node: for each camera frame it finds the stop
 * line ahead that sits on a path waypoint, the traffic light just beyond that
 * line, classifies the light, and feeds the result through the debouncer.
 * Distances are a parameter `d` and the classifier is a parameter `classify`.
 */
module TrafficLights {
  import opened Options
  import opened Geometry
  import opened Scans
  import opened Debounce

  /** The largest finite double, the scan's initial "best" distance. */
  const FLOAT_MAX: real := 179769313486231570814527423731704356798070567525844996598917476803157260780028538760589558632766878171540458953514382464234321326889464182768467546703537516986049910576551282076245490090389328944075868508455133942304583236903222948165808559332123348274797826204144723168738177180919299881250404026184124858368.0

  /** Stop lines farther than this from the car are skipped. */
  const STOP_LINE_RANGE: real := 200.0
  /** Initial bound on the waypoint index of an accepted stop line. */
  const INITIAL_BOUND: int := 200
  /** A stop line must lie closer than this to its nearest waypoint. */
  const ALIGNMENT: real := 1.0
  /** A stop line's waypoint index must be below this. */
  const HORIZON: int := 150
  /** A light must lie closer than this to the stop line's waypoint. */
  const LIGHT_RANGE: real := 50.0
  /** How many waypoints past the stop line the direction check looks. */
  const NEXT_OFFSET: int := 2

  /** A traffic light as reported by the simulator: where it is and its reported state. */
  datatype Light = Light(position: Point, state: LightState)
  /** A configured stop line, in map coordinates. */
  datatype StopLine = StopLine(x: real, y: real)
  /** The image classifier, applied to the current frame and a light. */
  type Classifier = Light -> LightState

  /** A scan result: waypoint index and its distance. */
  datatype Nearest = Nearest(index: nat, dist: real)
  /** The closest-waypoint helper's result; without a path it returns a bare 0 instead of a pair. */
  datatype Closest = Bare0 | Found(nearest: Nearest)

  /** Distances from `p` to each waypoint, in path order. */
  function DistancesFrom(d: Metric, p: Point, wps: seq<Point>): (ds: seq<real>)
    ensures |ds| == |wps|
    ensures forall i :: 0 <= i < |wps| ==> ds[i] == d(p, wps[i])
  {
    seq(|wps|, i requires 0 <= i < |wps| => d(p, wps[i]))
  }

  /**
   * The early-stopping scan from index 0 with FLOAT_MAX as the initial best:
   * the end of the initial strictly descending run of distances, or index 0
   * with FLOAT_MAX when there is no distance below FLOAT_MAX to start with.
   */
  function NearestOf(ds: seq<real>): (r: Nearest)
    ensures (|ds| == 0 || ds[0] >= FLOAT_MAX) ==> r == Nearest(0, FLOAT_MAX)
    ensures (|ds| > 0 && ds[0] < FLOAT_MAX) ==> IsDescentEnd(ds, r.index) && r.dist == ds[r.index]
  {
    if |ds| == 0 || !(ds[0] < FLOAT_MAX) then Nearest(0, FLOAT_MAX)
    else
      var m := DescentEnd(ds);
      Nearest(m, ds[m])
  }

  /** A light lies within range of the stop line's waypoint and is closer to the waypoint two further on. */
  predicate Qualifies(d: Metric, light: Light, lineWp: Point, lineNext: Point)
  {
    d(light.position, lineWp) < LIGHT_RANGE && d(light.position, lineNext) < d(light.position, lineWp)
  }

  /** Light `i` is, among the first `n`, the qualifying one nearest the stop line's waypoint, the first such on ties. */
  ghost predicate IsBestLight(d: Metric, lights: seq<Light>, n: nat, lineWp: Point, lineNext: Point, i: nat)
    requires n <= |lights|
  {
    && i < n
    && Qualifies(d, lights[i], lineWp, lineNext)
    && (forall j :: 0 <= j < n && Qualifies(d, lights[j], lineWp, lineNext) ==>
          d(lights[i].position, lineWp) <= d(lights[j].position, lineWp))
    && (forall j :: 0 <= j < i && Qualifies(d, lights[j], lineWp, lineNext) ==>
          d(lights[i].position, lineWp) < d(lights[j].position, lineWp))
  }

  /** The light loop from light `i` on, with `best` the light kept so far. */
  function BestLightFrom(d: Metric, lights: seq<Light>, lineWp: Point, lineNext: Point, i: nat, best: Option<nat>): (r: Option<nat>)
    requires i <= |lights|
    requires best.Some? ==> IsBestLight(d, lights, i, lineWp, lineNext, best.value)
    requires best.None? ==> forall j :: 0 <= j < i ==> !Qualifies(d, lights[j], lineWp, lineNext)
    ensures r.Some? ==> IsBestLight(d, lights, |lights|, lineWp, lineNext, r.value)
    ensures r.None? ==> forall j :: 0 <= j < |lights| ==> !Qualifies(d, lights[j], lineWp, lineNext)
    decreases |lights| - i
  {
    if i == |lights| then best
    else
      var dl := d(lights[i].position, lineWp);
      var bestDist := if best.Some? then d(lights[best.value].position, lineWp) else FLOAT_MAX;
      if dl < LIGHT_RANGE && dl < bestDist && d(lights[i].position, lineNext) < dl then
        BestLightFrom(d, lights, lineWp, lineNext, i + 1, Some(i))
      else
        BestLightFrom(d, lights, lineWp, lineNext, i + 1, best)
  }

  /** The light chosen for a stop line: none exactly when no light qualifies, else the first nearest qualifying one. */
  function BestLight(d: Metric, lights: seq<Light>, lineWp: Point, lineNext: Point): (r: Option<nat>)
    ensures r.None? <==> forall j :: 0 <= j < |lights| ==> !Qualifies(d, lights[j], lineWp, lineNext)
    ensures r.Some? ==> IsBestLight(d, lights, |lights|, lineWp, lineNext, r.value)
  {
    BestLightFrom(d, lights, lineWp, lineNext, 0, None)
  }

  /** Everything one frame's correlation reads. */
  datatype Scene = Scene(d: Metric, waypoints: seq<Point>, car: Point, lines: seq<StopLine>, lights: seq<Light>)

  /** A stop line placed at the car's height. */
  function LinePoint(line: StopLine, car: Point): Point
  {
    Point(line.x, line.y, car.z)
  }

  /** The waypoint scan for stop line `i`. */
  function LineNearest(sc: Scene, i: nat): Nearest
    requires i < |sc.lines|
  {
    NearestOf(DistancesFrom(sc.d, LinePoint(sc.lines[i], sc.car), sc.waypoints))
  }

  /** Stop line `i` is within range of the car, on a waypoint, and within the horizon. */
  predicate Candidate(sc: Scene, i: nat)
    requires i < |sc.lines|
  {
    && !(sc.d(LinePoint(sc.lines[i], sc.car), sc.car) > STOP_LINE_RANGE)
    && LineNearest(sc, i).dist < ALIGNMENT
    && LineNearest(sc, i).index < HORIZON
  }

  /** The light kept so far and the waypoint index of its stop line. */
  datatype Match = NoMatch | Matched(light: Light, wp: int)
  /** The loop's state: the bound on stop-line indices and the match so far. */
  datatype Scan = Scan(bound: int, found: Match)

  /**
   * What the stop-line loop uses of one stop line: whether it is a candidate,
   * its waypoint index, whether the waypoint two further on is missing, and
   * the best light for it.
   */
  datatype LineInfo = LineInfo(candidate: bool, wp: nat, overflows: bool, light: Option<Light>)

  /** The summary of stop line `i`. */
  function InfoOf(sc: Scene, i: nat): (info: LineInfo)
    requires i < |sc.lines|
    ensures info.candidate ==> info.wp < HORIZON
    ensures !info.overflows ==> info.wp + NEXT_OFFSET < |sc.waypoints|
    ensures info.light.Some? ==> info.light.value in sc.lights
  {
    var wp := LineNearest(sc, i).index;
    var overflows := wp + NEXT_OFFSET >= |sc.waypoints|;
    var b := if overflows then None else BestLight(sc.d, sc.lights, sc.waypoints[wp], sc.waypoints[wp + NEXT_OFFSET]);
    LineInfo(Candidate(sc, i), wp, overflows, if b.Some? then Some(sc.lights[b.value]) else None)
  }

  /** The summaries of all stop lines, in configuration order. */
  function Infos(sc: Scene): (infos: seq<LineInfo>)
    ensures |infos| == |sc.lines|
  {
    seq(|sc.lines|, i requires 0 <= i < |sc.lines| => InfoOf(sc, i))
  }

  /** The stop-line loop from line `i` on; None when reading the waypoint two past a stop line is out of range. */
  function CorrelateFrom(infos: seq<LineInfo>, i: nat, acc: Scan): (r: Option<Scan>)
    requires i <= |infos|
    decreases |infos| - i
  {
    if i == |infos| then Some(acc)
    else
      var line := infos[i];
      if !line.candidate || line.wp >= acc.bound then CorrelateFrom(infos, i + 1, acc)
      else if line.overflows then None
      else CorrelateFrom(infos, i + 1, Scan(line.wp, MatchAfter(line, acc.found)))
  }

  /** The match after taking a stop line: its best light if there is one, else the match kept so far. */
  function MatchAfter(line: LineInfo, prev: Match): Match
  {
    if line.light.Some? then Matched(line.light.value, line.wp) else prev
  }

  /** The stop-line loop over all lines of a frame. */
  function Correlate(sc: Scene): Option<Scan>
  {
    CorrelateFrom(Infos(sc), 0, Scan(INITIAL_BOUND, NoMatch))
  }

  /** Stop line `i` is accepted: a candidate whose waypoint index is below that of every earlier candidate. */
  ghost predicate Accepted(infos: seq<LineInfo>, i: nat)
    requires i < |infos|
  {
    infos[i].candidate && forall j :: 0 <= j < i && infos[j].candidate ==> infos[i].wp < infos[j].wp
  }

  /** An accepted stop line whose waypoint two further on does not exist. */
  ghost predicate Overflows(infos: seq<LineInfo>, i: nat)
    requires i < |infos|
  {
    Accepted(infos, i) && infos[i].overflows
  }

  /** Some stop line from `i` on overflows. */
  ghost predicate AnyOverflow(infos: seq<LineInfo>, i: nat)
    requires i <= |infos|
    decreases |infos| - i
  {
    i < |infos| && (Overflows(infos, i) || AnyOverflow(infos, i + 1))
  }

  /** The recursive test agrees with "some stop line from `i` on overflows". */
  lemma {:induction false} AnyOverflowExists(infos: seq<LineInfo>, i: nat)
    requires i <= |infos|
    ensures AnyOverflow(infos, i) <==> exists j :: i <= j < |infos| && Overflows(infos, j)
    decreases |infos| - i
  {
    if i < |infos| {
      AnyOverflowExists(infos, i + 1);
    }
  }

  /** The light of the last accepted stop line, among the first `n`, that has a best light. */
  ghost function LastMatch(infos: seq<LineInfo>, n: nat): Match
    requires n <= |infos|
  {
    if n == 0 then NoMatch
    else if Accepted(infos, n - 1) && !infos[n - 1].overflows then MatchAfter(infos[n - 1], LastMatch(infos, n - 1))
    else LastMatch(infos, n - 1)
  }

  /** `b` is the running bound after the first `n` lines: the least candidate index, or the initial bound. */
  ghost predicate LeastSoFar(infos: seq<LineInfo>, n: nat, b: int)
    requires n <= |infos|
  {
    && b <= INITIAL_BOUND
    && (forall j :: 0 <= j < n && infos[j].candidate ==> b <= infos[j].wp)
    && (b == INITIAL_BOUND || exists j :: 0 <= j < n && infos[j].candidate && infos[j].wp == b)
  }

  /** Candidate indices lie below the horizon. */
  ghost predicate WithinHorizon(infos: seq<LineInfo>)
  {
    forall j :: 0 <= j < |infos| && infos[j].candidate ==> infos[j].wp < HORIZON
  }

  /** A line the loop skips is not accepted, and the bound stays the least candidate index. */
  lemma SkippedLine(infos: seq<LineInfo>, i: nat, b: int)
    requires i < |infos| && WithinHorizon(infos)
    requires LeastSoFar(infos, i, b)
    requires !infos[i].candidate || infos[i].wp >= b
    ensures !Accepted(infos, i)
    ensures LeastSoFar(infos, i + 1, b)
  {
    if infos[i].candidate && b != INITIAL_BOUND {
      var j :| 0 <= j < i && infos[j].candidate && infos[j].wp == b;
    }
  }

  /** A line the loop takes is accepted, and its index becomes the bound, whether or not a light matches. */
  lemma TakenLine(infos: seq<LineInfo>, i: nat, b: int)
    requires i < |infos|
    requires LeastSoFar(infos, i, b)
    requires infos[i].candidate && infos[i].wp < b
    ensures Accepted(infos, i)
    ensures LeastSoFar(infos, i + 1, infos[i].wp)
  {
  }

  /** The loop keeps the least candidate index as its bound and the last accepted line's light as its match. */
  lemma {:induction false} CorrelateFromInvariant(infos: seq<LineInfo>, i: nat, acc: Scan)
    requires i <= |infos| && WithinHorizon(infos)
    requires LeastSoFar(infos, i, acc.bound)
    requires acc.found == LastMatch(infos, i)
    ensures CorrelateFrom(infos, i, acc).None? <==> AnyOverflow(infos, i)
    ensures CorrelateFrom(infos, i, acc).Some? ==> CorrelateFrom(infos, i, acc).value.found == LastMatch(infos, |infos|)
    decreases |infos| - i
  {
    if i < |infos| {
      var line := infos[i];
      if !line.candidate || line.wp >= acc.bound {
        SkippedLine(infos, i, acc.bound);
        CorrelateFromInvariant(infos, i + 1, acc);
      } else {
        TakenLine(infos, i, acc.bound);
        if !line.overflows {
          CorrelateFromInvariant(infos, i + 1, Scan(line.wp, MatchAfter(line, acc.found)));
        }
      }
    }
  }

  /** Every stop-line summary of a frame puts candidates below the horizon. */
  lemma InfosWithinHorizon(sc: Scene)
    ensures WithinHorizon(Infos(sc))
  {
    var infos := Infos(sc);
    forall j | 0 <= j < |infos| && infos[j].candidate
      ensures infos[j].wp < HORIZON
    {
      assert infos[j] == InfoOf(sc, j);
    }
  }

  /**
   * One frame's correlation: it fails exactly when some accepted stop line
   * has no waypoint two further on; otherwise the light kept is that of the
   * last accepted stop line that has a best light, where a stop line is
   * accepted when it is a candidate whose waypoint index is below that of
   * every earlier candidate.
   */
  lemma CorrelateCharacterised(sc: Scene)
    ensures Correlate(sc).None? <==> exists i :: 0 <= i < |sc.lines| && Overflows(Infos(sc), i)
    ensures Correlate(sc).Some? ==> Correlate(sc).value.found == LastMatch(Infos(sc), |sc.lines|)
  {
    InfosWithinHorizon(sc);
    CorrelateFromInvariant(Infos(sc), 0, Scan(INITIAL_BOUND, NoMatch));
    AnyOverflowExists(Infos(sc), 0);
  }

  /** A kept light comes from an accepted stop line that has two waypoints after it, and that line's best light. */
  lemma {:induction false} LastMatchFromAccepted(infos: seq<LineInfo>, n: nat)
    requires n <= |infos|
    ensures var m := LastMatch(infos, n);
      m.Matched? ==> exists i :: 0 <= i < n && Accepted(infos, i) && !infos[i].overflows
                                 && infos[i].light == Some(m.light) && infos[i].wp == m.wp
  {
    if n > 0 {
      LastMatchFromAccepted(infos, n - 1);
    }
  }

  /** A kept light is one of the reported lights, and its stop index is below the horizon with two more waypoints after it. */
  lemma LastMatchInHorizon(sc: Scene)
    ensures var m := LastMatch(Infos(sc), |sc.lines|);
      m.Matched? ==> m.light in sc.lights && 0 <= m.wp < HORIZON && m.wp + NEXT_OFFSET < |sc.waypoints|
  {
    var infos := Infos(sc);
    LastMatchFromAccepted(infos, |infos|);
    var m := LastMatch(infos, |infos|);
    if m.Matched? {
      var i :| 0 <= i < |infos| && Accepted(infos, i) && !infos[i].overflows
               && infos[i].light == Some(m.light) && infos[i].wp == m.wp;
      assert infos[i] == InfoOf(sc, i);
    }
  }

  /** The result of correlation for a frame: None when it raises, else the match. */
  function Correlation(d: Metric, pose: Option<Pose>, waypoints: Option<seq<Point>>, lines: seq<StopLine>, lights: seq<Light>): Option<Match>
  {
    if pose.Some? && waypoints.Some? && |waypoints.value| > 0 then
      var s := Correlate(Scene(d, waypoints.value, pose.value.position, lines, lights));
      if s.None? then None else Some(s.value.found)
    else Some(NoMatch)
  }

  /** The detection reported for a match: the stop index and the classified state, or -1 and Unknown. */
  function DetectionOf(m: Match, classify: Classifier): Detection
  {
    if m.Matched? then Detection(m.wp, classify(m.light)) else Detection(-1, Unknown)
  }

  /** Without a pose or a path, or when no stop line qualifies, the detection is "no light". */
  lemma NotReadyDetectsNothing(d: Metric, pose: Option<Pose>, waypoints: Option<seq<Point>>, lines: seq<StopLine>, lights: seq<Light>, classify: Classifier)
    requires pose.None? || waypoints.None? || |waypoints.value| == 0 || lights == []
    ensures var c := Correlation(d, pose, waypoints, lines, lights);
      c.Some? ==> DetectionOf(c.value, classify) == Detection(-1, Unknown)
  {
    if pose.Some? && waypoints.Some? && |waypoints.value| > 0 {
      var sc := Scene(d, waypoints.value, pose.value.position, lines, lights);
      CorrelateCharacterised(sc);
      LastMatchInHorizon(sc);
    }
  }

  /** A detected stop index is a path waypoint below the horizon with two more waypoints after it. */
  lemma DetectionInHorizon(d: Metric, pose: Option<Pose>, waypoints: Option<seq<Point>>, lines: seq<StopLine>, lights: seq<Light>, classify: Classifier)
    ensures var c := Correlation(d, pose, waypoints, lines, lights);
      c.Some? ==> var det := DetectionOf(c.value, classify);
        det.lightWp == -1 || (waypoints.Some? && 0 <= det.lightWp < HORIZON && det.lightWp + NEXT_OFFSET < |waypoints.value|)
  {
    if pose.Some? && waypoints.Some? && |waypoints.value| > 0 {
      var sc := Scene(d, waypoints.value, pose.value.position, lines, lights);
      CorrelateCharacterised(sc);
      LastMatchInHorizon(sc);
    }
  }

  /** What correlating a frame yields: the IndexError, or a detection. */
  datatype Processed = IndexError | Detected(detection: Detection)
  /** What a camera frame yields: the IndexError, or what the debouncer published. */
  datatype Callback = Raised | Handled(published: Option<int>)

  class TLDetector {
    var pose: Option<Pose>
    var waypoints: Option<seq<Point>>
    var lights: seq<Light>
    const stopLines: seq<StopLine>
    var state: LightState
    var lastState: LightState
    var lastWp: int
    var stateCount: int

    /** The debouncer's fields. */
    function Fields(): Debouncer
      reads this
    {
      Debouncer(state, stateCount, lastWp, lastState)
    }

    /** A node with no pose, path or lights yet, and a fresh debouncer. */
    constructor (stopLines: seq<StopLine>)
      ensures this.stopLines == stopLines
      ensures pose == None && waypoints == None && lights == []
      ensures Fields() == Initial()
    {
      this.stopLines := stopLines;
      pose := None;
      waypoints := None;
      lights := [];
      state := Unknown;
      lastState := Unknown;
      lastWp := -1;
      stateCount := 0;
    }

    /**
     * The closest-waypoint scan: walks the path from its start while the
     * distance keeps strictly falling below the best so far (initially
     * FLOAT_MAX) and stops at the first waypoint that is not closer.
     */
    method GetClosestWaypoint(d: Metric, p: Point) returns (r: Closest)
      ensures waypoints.None? ==> r == Bare0
      ensures waypoints.Some? ==> r == Found(NearestOf(DistancesFrom(d, p, waypoints.value)))
    {
      if waypoints.None? {
        return Bare0;
      }
      var wps := waypoints.value;
      ghost var ds := DistancesFrom(d, p, wps);
      var best := FLOAT_MAX;
      var closest := 0;
      var i := 0;
      while i < |wps|
        invariant 0 <= i <= |wps|
        invariant i == 0 ==> closest == 0 && best == FLOAT_MAX
        invariant i > 0 ==> ds[0] < FLOAT_MAX && closest == i - 1 && best == ds[i - 1]
        invariant forall j :: 0 < j < i ==> ds[j] < ds[j - 1]
      {
        var dist := d(p, wps[i]);
        if dist < best {
          closest, best := i, dist;
        } else {
          break;
        }
        i := i + 1;
      }
      if 0 < |ds| && ds[0] < FLOAT_MAX {
        assert IsDescentEnd(ds, closest);
        DescentEndUnique(ds, closest, DescentEnd(ds));
      }
      return Found(Nearest(closest, best));
    }

    /** The light loop for one stop line. */
    method SelectBestLight(d: Metric, lineWp: Point, lineNext: Point) returns (b: Option<nat>)
      ensures b == BestLight(d, lights, lineWp, lineNext)
    {
      var best := FLOAT_MAX;
      b := None;
      for j := 0 to |lights|
        invariant b.Some? ==> IsBestLight(d, lights, j, lineWp, lineNext, b.value) && best == d(lights[b.value].position, lineWp)
        invariant b.None? ==> best == FLOAT_MAX && forall k :: 0 <= k < j ==> !Qualifies(d, lights[k], lineWp, lineNext)
        invariant BestLightFrom(d, lights, lineWp, lineNext, j, b) == BestLight(d, lights, lineWp, lineNext)
      {
        var distLight := d(lights[j].position, lineWp);
        if distLight < LIGHT_RANGE && distLight < best {
          var distNext := d(lights[j].position, lineNext);
          if distNext < distLight {
            best := distLight;
            b := Some(j);
          }
        }
      }
    }

    /** The stop-line loop; None when reading the waypoint two past a stop line raises. */
    method SelectLight(d: Metric) returns (sel: Option<Scan>)
      requires pose.Some? && waypoints.Some?
      ensures sel == Correlate(Scene(d, waypoints.value, pose.value.position, stopLines, lights))
    {
      ghost var sc := Scene(d, waypoints.value, pose.value.position, stopLines, lights);
      var wps := waypoints.value;
      var car := pose.value.position;
      var closest := INITIAL_BOUND;
      var found := NoMatch;
      var i := 0;
      while i < |stopLines|
        invariant 0 <= i <= |stopLines|
        invariant CorrelateFrom(Infos(sc), i, Scan(closest, found)) == Correlate(sc)
      {
        assert Infos(sc)[i] == InfoOf(sc, i);
        var pos := LinePoint(stopLines[i], car);
        if d(pos, car) > STOP_LINE_RANGE {
          i := i + 1;
          continue;
        }
        var r := GetClosestWaypoint(d, pos);
        var wp, dist := r.nearest.index, r.nearest.dist;
        if dist < ALIGNMENT && wp < HORIZON && wp < closest {
          closest := wp;
          if wp + NEXT_OFFSET >= |wps| {
            return None;
          }
          var b := SelectBestLight(d, wps[wp], wps[wp + NEXT_OFFSET]);
          if b.Some? {
            found := Matched(lights[b.value], wp);
          }
        }
        i := i + 1;
      }
      return Some(Scan(closest, found));
    }

    /**
     * Correlates the current frame: with a pose and a non-empty path it runs
     * the stop-line loop; a kept light is classified and reported with its
     * stop index, and without one the path is dropped and "no light" is
     * reported.
     */
    method ProcessTrafficLights(d: Metric, classify: Classifier) returns (r: Processed)
      modifies this
      ensures pose == old(pose) && lights == old(lights) && Fields() == old(Fields())
      ensures var c := Correlation(d, old(pose), old(waypoints), stopLines, old(lights));
        && (c.None? ==> r == IndexError && waypoints == old(waypoints))
        && (c.Some? ==> r == Detected(DetectionOf(c.value, classify))
                        && waypoints == (if c.value.Matched? then old(waypoints) else None))
    {
      var found := NoMatch;
      if pose.Some? && waypoints.Some? && |waypoints.value| > 0 {
        var sel := SelectLight(d);
        if sel.None? {
          return IndexError;
        }
        found := sel.value.found;
      }
      if found.Matched? {
        return Detected(Detection(found.wp, classify(found.light)));
      }
      waypoints := None;
      return Detected(Detection(-1, Unknown));
    }

    /**
     * A camera frame: correlates it and passes the detection through the
     * debouncer; when correlation raises, the debouncer is left alone.
     */
    method ImageCb(d: Metric, classify: Classifier) returns (out: Callback)
      modifies this
      ensures pose == old(pose) && lights == old(lights)
      ensures var c := Correlation(d, old(pose), old(waypoints), stopLines, old(lights));
        && (c.None? ==> out == Raised && Fields() == old(Fields()) && waypoints == old(waypoints))
        && (c.Some? ==>
              var st := Step(old(Fields()), DetectionOf(c.value, classify));
              Fields() == st.next && out == Handled(st.published)
              && waypoints == (if c.value.Matched? then old(waypoints) else None))
    {
      var p := ProcessTrafficLights(d, classify);
      if p.IndexError? {
        return Raised;
      }
      var det := p.detection;
      if state != det.state {
        stateCount := 0;
        state := det.state;
        out := Handled(None);
      } else if stateCount >= STATE_COUNT_THRESHOLD {
        lastState := state;
        var wp := if det.state == Red then det.lightWp else -1;
        lastWp := wp;
        out := Handled(Some(wp));
      } else {
        out := Handled(Some(lastWp));
      }
      stateCount := stateCount + 1;
    }
  }
}
