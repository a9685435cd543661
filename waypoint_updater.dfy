/**
 * The waypoint updater node: each tick it locates the car on the base path,
 * decides whether a stop waypoint lies within the lookahead window, writes a
 * cruise or brake speed profile into the base waypoints of that window and
 * publishes those waypoints.
 *
 * The base waypoints are objects whose speeds the node overwrites in place
 * and then publishes by reference. The model keeps the positions as a fixed
 * sequence and the speeds as an array; a generated lane is a sequence of base
 * indices, read from the array when it is published. When the path has fewer
 * waypoints than the lookahead, an index occurs twice in the window and the
 * later write is the one published for both.
 */
module Waypoints {
  import opened Options
  import opened Geometry
  import opened Scans
  import opened SpeedProfile

  /** Number of waypoints published per tick. */
  const LOOKAHEAD_WPS: nat := 25

  /** A published waypoint: a base position with the speed stored for it. */
  datatype Waypoint = Waypoint(position: Point, speed: real)

  /** What one pass of the publishing loop does. */
  datatype TickOutcome =
    | NotReady                       // no base path or no pose yet: nothing published
    | Crashed                        // an exception escapes the loop: nothing published
    | Published(lane: seq<Waypoint>)

  /** What the generation step returns: base indices of the lane, or the division by zero it raises. */
  datatype Generation = Lane(indices: seq<int>) | ZeroDivision

  /** The writes a generation step performs: the window and the speed written at each position. */
  datatype Plan = Writes(window: seq<int>, speeds: seq<real>) | DivisionByZero

  // ------------------------------------------------------------ locating

  /** Distance from every base waypoint to the point `p`. */
  function Distances(d: Metric, positions: seq<Point>, p: Point): seq<real>
  {
    seq(|positions|, i requires 0 <= i < |positions| => d(positions[i], p))
  }

  /** The node resumes from its last index only when that index is truthy: set and not 0. */
  predicate Resumes(last: Option<int>)
  {
    last.Some? && last.value != 0
  }

  /** The index the search settles on, before the behind correction. */
  function SearchIndex(ds: seq<real>, last: Option<int>): (r: nat)
    requires |ds| > 0
    ensures r < |ds|
  {
    if Resumes(last) then (last.value + DescentEnd(Rotate(ds, last.value))) % |ds|
    else FirstMinimum(ds)
  }

  /**
   * The closest index the locator returns for `pose`: the search result,
   * plus one when that waypoint is behind the car. There is no wrap, so the
   * result may equal the number of waypoints.
   */
  function LocatedIndex(d: Metric, frame: Frame, positions: seq<Point>, last: Option<int>, pose: Pose): (r: nat)
    requires |positions| > 0
    ensures var raw := SearchIndex(Distances(d, positions, pose.position), last);
      && (r == raw || r == raw + 1)
      && (r == raw + 1 <==> IsBehind(frame, pose, positions[raw]))
      && r <= |positions|
  {
    var raw := SearchIndex(Distances(d, positions, pose.position), last);
    if IsBehind(frame, pose, positions[raw]) then raw + 1 else raw
  }

  /**
   * The two search modes. Without a truthy last index (unset, or 0) the
   * search returns the smallest index of minimal distance. Resuming from
   * `p`, it returns the end of the strictly decreasing run of distances read
   * at p, p + 1, ... modulo n, a walk of at most n indices.
   */
  lemma SearchModes(ds: seq<real>, last: Option<int>)
    requires |ds| > 0
    ensures !Resumes(last) ==> IsFirstMinimum(ds, SearchIndex(ds, last))
    ensures Resumes(last) ==> exists m ::
      && IsDescentEnd(Rotate(ds, last.value), m)
      && SearchIndex(ds, last) == (last.value + m) % |ds|
  {
    if Resumes(last) {
      var m := DescentEnd(Rotate(ds, last.value));
      assert IsDescentEnd(Rotate(ds, last.value), m);
    }
  }

  // -------------------------------------------------------------- window

  /** Every index in `idxs` names one of `n` waypoints. */
  predicate IndicesBelow(idxs: seq<int>, n: int)
  {
    forall k :: 0 <= k < |idxs| ==> 0 <= idxs[k] < n
  }

  /** Base index of the `i`-th waypoint of a window starting at `first`. */
  function WindowIndex(first: int, i: int, n: nat): int
    requires n > 0
  {
    (first + i) % n
  }

  /** The base indices visited for `first <= i < last`, wrapped modulo n. */
  function Window(first: int, last: int, n: nat): (w: seq<int>)
    requires n > 0
    ensures |w| == if last <= first then 0 else last - first
    ensures IndicesBelow(w, n)
  {
    seq(if last <= first then 0 else last - first, k requires 0 <= k => WindowIndex(first, k, n))
  }

  /** If `0 < q * n < n` held for an integer q, q could be neither positive nor non-positive. */
  lemma NoMultipleBelow(q: int, n: nat)
    requires n > 0
    ensures !(0 < q * n < n)
  {
    if q >= 1 {
      assert q * n == n + (q - 1) * n;
      assert (q - 1) * n >= 0;
    } else {
      assert q * n == -((-q) * n);
      assert (-q) * n >= 0;
    }
  }

  /** Fewer than n steps apart, two window positions name different base waypoints. */
  lemma WindowIndexInjective(first: int, a: int, b: int, n: nat)
    requires n > 0 && a < b < a + n
    ensures WindowIndex(first, a, n) != WindowIndex(first, b, n)
  {
    var u, v := first + a, first + b;
    assert u == (u / n) * n + u % n;
    assert v == (v / n) * n + v % n;
    if u % n == v % n {
      assert v - u == (v / n - u / n) * n;
      NoMultipleBelow(v / n - u / n, n);
    }
  }

  /** A window no longer than the path visits every base waypoint at most once. */
  lemma WindowDistinct(first: int, last: int, n: nat)
    requires n > 0 && last - first <= n
    ensures var w := Window(first, last, n);
      forall a, b :: 0 <= a < b < |w| ==> w[a] != w[b]
  {
    var w := Window(first, last, n);
    forall a, b | 0 <= a < b < |w|
      ensures w[a] != w[b]
    {
      WindowIndexInjective(first, a, b, n);
    }
  }

  /** Stepping `first` forward by the offset `(target - first) % n` lands on `target`. */
  lemma OffsetReaches(first: int, target: int, n: nat)
    requires n > 0 && 0 <= target < n
    ensures WindowIndex(first, (target - first) % n, n) == target
  {
    var off := (target - first) % n;
    var y := first + off;
    assert target - first == ((target - first) / n) * n + off;
    assert y == (y / n) * n + y % n;
    var q := (target - first) / n + y / n;
    assert target - y % n == q * n;
    if target - y % n > 0 {
      NoMultipleBelow(q, n);
    } else if target - y % n < 0 {
      assert y % n - target == (-q) * n;
      NoMultipleBelow(-q, n);
    }
  }

  /**
   * The resumed walk agrees with the full scan when the minimum is unique
   * and the distances read forward from the last index strictly decrease
   * until they reach it: the car moved less than the waypoint spacing.
   */
  lemma ResumeAgreesWithScan(ds: seq<real>, p: int)
    requires |ds| > 0 && p != 0
    requires forall j :: 0 <= j < |ds| && j != FirstMinimum(ds) ==> ds[FirstMinimum(ds)] < ds[j]
    requires forall k :: 0 < k <= (FirstMinimum(ds) - p) % |ds| ==> Rotate(ds, p)[k] < Rotate(ds, p)[k - 1]
    ensures SearchIndex(ds, Some(p)) == SearchIndex(ds, None)
  {
    var n := |ds|;
    var g := FirstMinimum(ds);
    var rs := Rotate(ds, p);
    var m := (g - p) % n;
    OffsetReaches(p, g, n);
    assert rs[m] == ds[g];
    forall j | 0 <= j < n && j != m
      ensures rs[m] < rs[j]
    {
      if j < m {
        WindowIndexInjective(p, j, m, n);
      } else {
        WindowIndexInjective(p, m, j, n);
      }
    }
    assert IsFirstMinimum(rs, m);
    DescentEndIsFirstMinimum(rs, m);
  }

  // ------------------------------------------------------------- traffic

  /** Whether `t` is one of the window indices `i .. LOOKAHEAD_WPS - 1` from `first`. */
  function InWindowFrom(t: int, first: int, n: nat, i: nat): (found: bool)
    requires n > 0 && i <= LOOKAHEAD_WPS
    ensures found <==> exists j :: i <= j < LOOKAHEAD_WPS && WindowIndex(first, j, n) == t
    decreases LOOKAHEAD_WPS - i
  {
    if i == LOOKAHEAD_WPS then false
    else WindowIndex(first, i, n) == t || InWindowFrom(t, first, n, i + 1)
  }

  /**
   * The stop waypoint the updater acts on: the received traffic index when it
   * is set, not -1, and one of the LOOKAHEAD_WPS window indices from
   * `closest`; otherwise -1.
   */
  function GetTrafficWp(trafficWpInd: Option<int>, closest: int, n: nat): (r: int)
    requires n > 0
    ensures r == -1 || trafficWpInd == Some(r)
    ensures r != -1 <==>
      && trafficWpInd.Some? && trafficWpInd.value != -1
      && exists i :: 0 <= i < LOOKAHEAD_WPS && WindowIndex(closest, i, n) == trafficWpInd.value
  {
    if trafficWpInd.Some? && trafficWpInd.value != -1 && InWindowFrom(trafficWpInd.value, closest, n, 0)
    then trafficWpInd.value
    else -1
  }

  // -------------------------------------------------------------- writes

  /** The speeds after writing `vals[k]` at index `idxs[k]`, in order, over `s`. */
  function ApplyWrites(s: seq<real>, idxs: seq<int>, vals: seq<real>): (r: seq<real>)
    requires |idxs| == |vals|
    requires IndicesBelow(idxs, |s|)
    ensures |r| == |s|
    decreases |idxs|
  {
    if idxs == [] then s
    else
      var last := |idxs| - 1;
      ApplyWrites(s, idxs[..last], vals[..last])[idxs[last] := vals[last]]
  }

  /** Speeds at indices that are not written stay as they were. */
  lemma {:induction false} ApplyWritesOutside(s: seq<real>, idxs: seq<int>, vals: seq<real>, j: int)
    requires |idxs| == |vals|
    requires IndicesBelow(idxs, |s|)
    requires 0 <= j < |s| && forall k :: 0 <= k < |idxs| ==> idxs[k] != j
    ensures ApplyWrites(s, idxs, vals)[j] == s[j]
    decreases |idxs|
  {
    if idxs != [] {
      var last := |idxs| - 1;
      ApplyWritesOutside(s, idxs[..last], vals[..last], j);
    }
  }

  /** When no index is written twice, each written index holds the value written to it. */
  lemma {:induction false} ApplyWritesDistinct(s: seq<real>, idxs: seq<int>, vals: seq<real>, k: nat)
    requires |idxs| == |vals|
    requires IndicesBelow(idxs, |s|)
    requires forall a, b :: 0 <= a < b < |idxs| ==> idxs[a] != idxs[b]
    requires k < |idxs|
    ensures ApplyWrites(s, idxs, vals)[idxs[k]] == vals[k]
    decreases |idxs|
  {
    var last := |idxs| - 1;
    if k < last {
      ApplyWritesDistinct(s, idxs[..last], vals[..last], k);
    }
  }

  /** One more write extends the written prefix. */
  lemma ApplyWritesStep(s: seq<real>, idxs: seq<int>, vals: seq<real>, k: nat)
    requires |idxs| == |vals| && k < |idxs|
    requires IndicesBelow(idxs, |s|)
    ensures ApplyWrites(s, idxs[..k + 1], vals[..k + 1])
         == ApplyWrites(s, idxs[..k], vals[..k])[idxs[k] := vals[k]]
  {
    assert idxs[..k + 1][..k] == idxs[..k] && vals[..k + 1][..k] == vals[..k];
  }

  // ----------------------------------------------------------- generation

  /** The brake parameters for a stop at `traffic`, given the coefficient. */
  function BrakePlanFor(maxVel: real, brakingDistance: real, stopDistance: real, creepSpeed: real,
                        currentSpeed: real, coeff: real, traffic: int): BrakePlan
  {
    BrakePlan(maxVel * KPH_MPS, brakingDistance, stopDistance, creepSpeed, currentSpeed, coeff, traffic)
  }

  /**
   * Nothing keeps brake speeds non-negative. With the node's default
   * parameters (maximum velocity 20, braking distance 40, stop distance 5,
   * creep speed 5 km/h), a car at speed 10 that is 40 from the stop
   * waypoint brakes with coefficient min(40, 40) / 10 = 4. Every window
   * waypoint before the stop index that lies within the stop distance of
   * the stop waypoint is then given 10 - 4 * (40 - w) = -150 + 4 * w, at
   * most -130, whatever the rest of the window.
   */
  lemma BrakeSpeedCanBeNegative(idxs: seq<int>, wpd: seq<real>, traffic: int, k: nat)
    requires |wpd| == |idxs| && k < |idxs|
    requires forall j :: 0 <= j <= k ==> idxs[j] != traffic
    requires wpd[k] <= 5.0
    ensures var p := BrakePlanFor(20.0, 20.0 * 2.0, 5.0, 5.0 * KPH_MPS, 10.0, Min(40.0, 20.0 * 2.0) / 10.0, traffic);
      BrakeProfile(p, idxs, wpd)[k] == -150.0 + 4.0 * wpd[k] <= -130.0
  {
    var p := BrakePlanFor(20.0, 20.0 * 2.0, 5.0, 5.0 * KPH_MPS, 10.0, Min(40.0, 20.0 * 2.0) / 10.0, traffic);
    BrakeProfileCases(p, idxs, wpd, k);
    assert Decelerated(p, wpd[k]) == -150.0 + 4.0 * wpd[k];
  }

  /** Distance from each window waypoint to the stop waypoint. */
  function StopDistances(d: Metric, positions: seq<Point>, window: seq<int>, stop: Point): seq<real>
    requires IndicesBelow(window, |positions|)
  {
    seq(|window|, k requires 0 <= k < |window| => d(positions[window[k]], stop))
  }

  /**
   * The writes of one generation step: the cruise profile when not braking;
   * nothing when braking without a stop index; a division by zero when
   * braking at measured speed 0; otherwise the brake profile.
   */
  function PlanSpeeds(d: Metric, positions: seq<Point>, maxVel: real, brakingDistance: real,
                      stopDistance: real, creepSpeed: real, currentSpeed: real, brake: bool,
                      pose: Pose, closest: int, last: int, traffic: int): Plan
    requires |positions| > 0
  {
    var n := |positions|;
    var w := Window(closest, last, n);
    if !brake then Writes(w, CruiseProfile(currentSpeed, maxVel * KPH_MPS, |w|))
    else if traffic == -1 then Writes([], [])
    else if currentSpeed == 0.0 then DivisionByZero
    else
      var stop := positions[traffic % n];
      var coeff := Min(d(pose.position, stop), brakingDistance) / currentSpeed;
      var p := BrakePlanFor(maxVel, brakingDistance, stopDistance, creepSpeed, currentSpeed, coeff, traffic);
      Writes(w, BrakeProfile(p, w, StopDistances(d, positions, w, stop)))
  }

  /** A plan's writes stay within the path and give one speed per window position. */
  predicate WellFormed(plan: Plan, n: nat)
  {
    plan.Writes? ==>
      && |plan.window| == |plan.speeds|
      && IndicesBelow(plan.window, n)
  }

  lemma PlanWellFormed(d: Metric, positions: seq<Point>, maxVel: real, brakingDistance: real,
                       stopDistance: real, creepSpeed: real, currentSpeed: real, brake: bool,
                       pose: Pose, closest: int, last: int, traffic: int)
    requires |positions| > 0
    ensures WellFormed(PlanSpeeds(d, positions, maxVel, brakingDistance, stopDistance, creepSpeed,
                                  currentSpeed, brake, pose, closest, last, traffic), |positions|)
  {
  }

  /** The speeds stored after carrying out `plan` over `speeds`. */
  function Stored(speeds: seq<real>, plan: Plan): seq<real>
    requires WellFormed(plan, |speeds|)
  {
    if plan.Writes? then ApplyWrites(speeds, plan.window, plan.speeds) else speeds
  }

  /** The published lane: the window's base waypoints with the speeds stored for them. */
  function LaneOf(positions: seq<Point>, speeds: seq<real>, window: seq<int>): seq<Waypoint>
    requires |speeds| == |positions| && IndicesBelow(window, |positions|)
  {
    seq(|window|, k requires 0 <= k < |window| => Waypoint(positions[window[k]], speeds[window[k]]))
  }

  /**
   * On a path at least as long as the lookahead, the published lane carries
   * exactly the planned speeds, and every base waypoint outside the window
   * keeps its speed.
   */
  lemma StoredLane(positions: seq<Point>, speeds: seq<real>, plan: Plan, first: int)
    requires |speeds| == |positions| >= LOOKAHEAD_WPS > 0
    requires plan.Writes? && WellFormed(plan, |positions|)
    requires plan.window == Window(first, first + LOOKAHEAD_WPS, |positions|) || plan.window == []
    ensures var lane := LaneOf(positions, Stored(speeds, plan), plan.window);
      && |lane| == |plan.speeds|
      && forall k :: 0 <= k < |lane| ==>
           lane[k] == Waypoint(positions[plan.window[k]], plan.speeds[k])
    ensures forall j :: 0 <= j < |speeds| && j !in plan.window ==> Stored(speeds, plan)[j] == speeds[j]
  {
    if plan.window != [] {
      WindowDistinct(first, first + LOOKAHEAD_WPS, |positions|);
    }
    forall k | 0 <= k < |plan.window|
      ensures Stored(speeds, plan)[plan.window[k]] == plan.speeds[k]
    {
      ApplyWritesDistinct(speeds, plan.window, plan.speeds, k);
    }
    forall j | 0 <= j < |speeds| && j !in plan.window
      ensures Stored(speeds, plan)[j] == speeds[j]
    {
      ApplyWritesOutside(speeds, plan.window, plan.speeds, j);
    }
  }

  // ---------------------------------------------------------------- node

  class WaypointUpdater {
    /** Base waypoint positions, as last received. */
    var positions: seq<Point>
    /** Target speed of each base waypoint, overwritten in place by generation. */
    var speeds: array<real>
    /** Whether a base path has been received at all. */
    var baseLoaded: bool
    var pose: Option<Pose>
    var lastWaypoint: Option<int>
    var trafficWpInd: Option<int>
    var currentSpeed: real
    var applyBrake: bool

    const maxVel: real
    const brakingDistance: real
    const creepSpeed: real
    const stopDistance: real

    ghost predicate Valid()
      reads this
    {
      speeds.Length == |positions|
    }

    /** The node's initial state for a configured maximum velocity. */
    constructor (maxVel: real)
      ensures Valid()
      ensures this.maxVel == maxVel && brakingDistance == maxVel * 2.0
      ensures creepSpeed == 5.0 * KPH_MPS && stopDistance == 5.0
      ensures !baseLoaded && pose == None && lastWaypoint == None && trafficWpInd == None
      ensures currentSpeed == 0.0 && !applyBrake
    {
      this.maxVel := maxVel;
      brakingDistance := maxVel * 2.0;
      creepSpeed := 5.0 * KPH_MPS;
      stopDistance := 5.0;
      positions := [];
      speeds := new real[0];
      baseLoaded := false;
      pose := None;
      lastWaypoint := None;
      trafficWpInd := None;
      currentSpeed := 0.0;
      applyBrake := false;
    }

    /** Stores `v`, cut to the speed limit, as the target speed of base waypoint `idx`. */
    method SetWaypointVelocity(idx: int, v: real)
      requires 0 <= idx < speeds.Length
      modifies speeds
      ensures speeds[..] == old(speeds[..])[idx := SafeSpeed(v, maxVel * KPH_MPS)]
    {
      speeds[idx] := Min(v, maxVel * KPH_MPS);
    }

    /** The full scan: the first waypoint of minimal distance to `p`. */
    method ScanAll(d: Metric, p: Point) returns (closest: int)
      requires |positions| > 0
      ensures closest == FirstMinimum(Distances(d, positions, p))
    {
      ghost var ds := Distances(d, positions, p);
      closest := 0;
      var found := false;  // the best distance is still +infinity
      var best := 0.0;
      for i := 0 to |positions|
        invariant found <==> i > 0
        invariant 0 <= closest <= i
        invariant found ==> closest < i && best == ds[closest]
        invariant forall j :: 0 <= j < i ==> best <= ds[j]
        invariant forall j :: 0 <= j < closest ==> best < ds[j]
      {
        var dist := d(positions[i], p);
        if !found || dist < best {
          closest, best, found := i, dist, true;
        }
      }
      FirstMinimumUnique(ds, closest, FirstMinimum(ds));
    }

    /** The resumed walk from `start`: forward, wrapping, while the distance strictly decreases. */
    method WalkFrom(d: Metric, p: Point, start: int) returns (closest: int)
      requires |positions| > 0
      ensures var ds := Distances(d, positions, p);
        closest == (start + DescentEnd(Rotate(ds, start))) % |positions|
    {
      var n := |positions|;
      ghost var rs := Rotate(Distances(d, positions, p), start);
      closest := 0;
      var found := false;  // the best distance is still +infinity
      var best := 0.0;
      var i := 0;
      while i < n
        invariant 0 <= i <= n
        invariant found <==> i > 0
        invariant found ==> closest == (i - 1 + start) % n && best == rs[i - 1]
        invariant forall j :: 0 < j < i ==> rs[j] < rs[j - 1]
      {
        var idx := (i + start) % n;
        var dist := d(positions[idx], p);
        if !found || dist < best {
          closest, best, found := idx, dist, true;
        } else {
          break;
        }
        i := i + 1;
      }
      assert found;
      ghost var m := if i == n then n - 1 else i - 1;
      assert IsDescentEnd(rs, m);
      DescentEndUnique(rs, m, DescentEnd(rs));
    }

    /**
     * The locator: resume from the last index when it is truthy, else scan
     * everything; then step one index forward if that waypoint is behind.
     */
    method GetClosestWaypoint(d: Metric, frame: Frame, pose: Pose) returns (closest: int)
      requires |positions| > 0
      ensures closest == LocatedIndex(d, frame, positions, lastWaypoint, pose)
    {
      if lastWaypoint.Some? && lastWaypoint.value != 0 {
        closest := WalkFrom(d, pose.position, lastWaypoint.value);
      } else {
        closest := ScanAll(d, pose.position);
      }
      if IsBehind(frame, pose, positions[closest]) {
        closest := closest + 1;
      }
    }

    /** The cruise loop: each waypoint of the window gets the running speed plus SAFE_ACCEL, capped. */
    method WriteCruise(closest: int, last: int) returns (out: seq<int>)
      requires Valid() && |positions| > 0
      modifies speeds
      ensures out == Window(closest, last, |positions|)
      ensures speeds[..] == ApplyWrites(old(speeds[..]), out, CruiseProfile(currentSpeed, maxVel * KPH_MPS, |out|))
    {
      var n := |positions|;
      ghost var w := Window(closest, last, n);
      var limit := maxVel * KPH_MPS;
      var count := if last <= closest then 0 else last - closest;
      var v0 := currentSpeed;
      ghost var profile := CruiseProfile(v0, limit, count);
      ghost var s0 := speeds[..];
      var cur := v0;
      out := [];
      var k := 0;
      while k < count
        invariant 0 <= k <= count
        invariant out == w[..k]
        invariant cur == CruiseSpeed(v0, limit, k)
        invariant speeds[..] == ApplyWrites(s0, w[..k], profile[..k])
      {
        var idx := (closest + k) % n;
        cur := Min(cur + SAFE_ACCEL, limit);
        SetWaypointVelocity(idx, cur);
        ApplyWritesStep(s0, w, profile, k);
        out := out + [idx];
        k := k + 1;
      }
      assert w[..count] == w && profile[..count] == profile;
    }

    /**
     * The brake loop: until the stop index is met, ramp, creep or decelerate
     * by the distance to the stop waypoint; from the stop index on, speed 0.
     */
    method WriteBrake(d: Metric, stop: Point, coeff: real, closest: int, last: int, traffic: int)
      returns (out: seq<int>)
      requires Valid() && |positions| > 0
      modifies speeds
      ensures out == Window(closest, last, |positions|)
      ensures speeds[..] == ApplyWrites(old(speeds[..]), out,
        BrakeProfile(BrakePlanFor(maxVel, brakingDistance, stopDistance, creepSpeed, currentSpeed, coeff, traffic),
                     out, StopDistances(d, positions, out, stop)))
    {
      var n := |positions|;
      ghost var w := Window(closest, last, n);
      var limit := maxVel * KPH_MPS;
      var count := if last <= closest then 0 else last - closest;
      var plan := BrakePlanFor(maxVel, brakingDistance, stopDistance, creepSpeed, currentSpeed, coeff, traffic);
      ghost var wpd := StopDistances(d, positions, w, stop);
      ghost var profile := BrakeProfile(plan, w, wpd);
      ghost var s0 := speeds[..];
      var braking, stopping, creep := brakingDistance, stopDistance, creepSpeed;
      var cur := currentSpeed;
      var found := false;
      out := [];
      var k := 0;
      while k < count
        invariant 0 <= k <= count
        invariant out == w[..k]
        invariant BrakeSpeeds(plan, w[k..], wpd[k..], cur, found) == profile[k..]
        invariant speeds[..] == ApplyWrites(s0, w[..k], profile[..k])
      {
        var idx := (closest + k) % n;
        assert w[k..][1..] == w[k + 1..] && wpd[k..][1..] == wpd[k + 1..];
        assert profile[k + 1..] == profile[k..][1..];
        if !found {
          var wpDistance := d(positions[idx], stop);
          if idx == traffic {
            SetWaypointVelocity(idx, 0.0);
            found := true;
          } else if wpDistance > braking {
            cur := Min(cur + RAMP_ACCEL, limit);
            SetWaypointVelocity(idx, cur);
          } else {
            var recSpeed;
            if wpDistance > stopping {
              recSpeed := creep;
            } else {
              recSpeed := Decelerated(plan, wpDistance);
            }
            SetWaypointVelocity(idx, recSpeed);
          }
        } else {
          SetWaypointVelocity(idx, 0.0);
        }
        ApplyWritesStep(s0, w, profile, k);
        out := out + [idx];
        k := k + 1;
      }
      assert w[..count] == w && profile[..count] == profile;
    }

    /**
     * Writes the speed profile into the window `closest .. last - 1` (modulo
     * n) and returns the window's base indices: cruise when not braking,
     * nothing when braking without a stop index, otherwise the brake
     * profile, whose coefficient divides by the measured speed.
     */
    method GenerateNextWaypoints(d: Metric, pose: Pose, closest: int, last: int, traffic: int)
      returns (g: Generation)
      requires Valid() && |positions| > 0
      modifies speeds
      ensures var plan := PlanSpeeds(d, positions, maxVel, brakingDistance, stopDistance, creepSpeed,
                                     currentSpeed, applyBrake, pose, closest, last, traffic);
        && WellFormed(plan, |positions|)
        && g == (if plan.DivisionByZero? then ZeroDivision else Lane(plan.window))
        && speeds[..] == Stored(old(speeds[..]), plan)
    {
      var n := |positions|;
      if !applyBrake {
        var out := WriteCruise(closest, last);
        g := Lane(out);
      } else if traffic == -1 {
        g := Lane([]);
      } else {
        var stop := positions[traffic % n];
        var stopDist := d(pose.position, stop);
        if currentSpeed == 0.0 {
          g := ZeroDivision;
        } else {
          var coeff := Min(stopDist, brakingDistance) / currentSpeed;
          var out := WriteBrake(d, stop, coeff, closest, last, traffic);
          g := Lane(out);
        }
      }
    }

    /**
     * One pass of the publishing loop. Without a base path or a pose nothing
     * happens. Otherwise: locate the car, pick the stop index within the
     * lookahead window, brake exactly when there is one, write the profile,
     * publish the window and remember the located index for the next pass.
     * An empty path or braking at measured speed 0 raises instead.
     */
    method Tick(d: Metric, frame: Frame) returns (out: TickOutcome)
      requires Valid()
      modifies this, speeds
      ensures Valid()
      ensures positions == old(positions) && speeds == old(speeds) && baseLoaded == old(baseLoaded)
      ensures pose == old(pose) && trafficWpInd == old(trafficWpInd) && currentSpeed == old(currentSpeed)
      ensures !old(baseLoaded && pose.Some?) ==>
        && out == NotReady && applyBrake == old(applyBrake)
        && lastWaypoint == old(lastWaypoint) && speeds[..] == old(speeds[..])
      ensures old(baseLoaded && pose.Some?) && |positions| == 0 ==>
        && out == Crashed && applyBrake == old(applyBrake)
        && lastWaypoint == old(lastWaypoint) && speeds[..] == old(speeds[..])
      ensures old(baseLoaded && pose.Some?) && |positions| > 0 ==>
        var closest := LocatedIndex(d, frame, positions, old(lastWaypoint), pose.value);
        var traffic := GetTrafficWp(trafficWpInd, closest, |positions|);
        var plan := PlanSpeeds(d, positions, maxVel, brakingDistance, stopDistance, creepSpeed,
                               currentSpeed, traffic != -1, pose.value, closest, closest + LOOKAHEAD_WPS, traffic);
        && applyBrake == (traffic != -1)
        && WellFormed(plan, |positions|)
        && speeds[..] == Stored(old(speeds[..]), plan)
        && (plan.DivisionByZero? ==> out == Crashed && lastWaypoint == old(lastWaypoint))
        && (plan.Writes? ==>
              && out == Published(LaneOf(positions, speeds[..], plan.window))
              && lastWaypoint == Some(closest)
              && |plan.window| == LOOKAHEAD_WPS
              && (LOOKAHEAD_WPS <= |positions| ==>
                    forall k :: 0 <= k < LOOKAHEAD_WPS ==> out.lane[k].speed == plan.speeds[k]))
    {
      if !baseLoaded || pose.None? {
        return NotReady;
      }
      if |positions| == 0 {
        return Crashed;
      }
      var p := pose.value;
      var closest := GetClosestWaypoint(d, frame, p);
      var lastIndex := closest + LOOKAHEAD_WPS;
      var traffic := GetTrafficWp(trafficWpInd, closest, |positions|);
      applyBrake := traffic != -1;
      ghost var s0 := speeds[..];
      var g := GenerateNextWaypoints(d, p, closest, lastIndex, traffic);
      match g
      case ZeroDivision =>
        out := Crashed;
      case Lane(idxs) =>
        out := Published(LaneOf(positions, speeds[..], idxs));
        lastWaypoint := Some(closest);
        ghost var plan := PlanSpeeds(d, positions, maxVel, brakingDistance, stopDistance, creepSpeed,
                                     currentSpeed, applyBrake, p, closest, lastIndex, traffic);
        if LOOKAHEAD_WPS <= |positions| {
          StoredLane(positions, s0, plan, closest);
        }
    }
  }
}
