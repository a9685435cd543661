/**
 * The target speeds the waypoint updater writes into the lookahead window:
 * a cruise profile that accelerates towards the speed limit and a brake
 * profile that ramps, creeps and decelerates towards a stop waypoint. The
 * profiles are stated as the sequence of values written, one per window
 * position, in the order the generation loop writes them.
 */
module SpeedProfile {

  /** Speed gained per waypoint while cruising. */
  const SAFE_ACCEL: real := 1.0
  /** Conversion factor applied to the configured maximum velocity. */
  const KPH_MPS: real := 0.277778
  /** Speed gained per waypoint while still far from a stop: a quarter of SAFE_ACCEL. */
  const RAMP_ACCEL: real := SAFE_ACCEL * 0.25

  function Min(a: real, b: real): real
  {
    if b < a then b else a
  }

  /**
   * The speed actually stored for a waypoint: the requested speed, cut to the
   * limit. There is no lower bound.
   */
  function SafeSpeed(v: real, limit: real): (r: real)
    ensures r <= limit
    ensures v <= limit ==> r == v
    ensures limit < v ==> r == limit
  {
    Min(v, limit)
  }

  /** Speed reached after `k` increments of `step` from `v`, capped at `limit`. */
  function Accelerated(v: real, step: real, limit: real, k: nat): real
  {
    Min(v + k as real * step, limit)
  }

  // ---------------------------------------------------------------- cruise

  /** The running speed of the cruise loop after `k` steps from speed `v`. */
  function CruiseSpeed(v: real, limit: real, k: nat): real
  {
    if k == 0 then v else Min(CruiseSpeed(v, limit, k - 1) + SAFE_ACCEL, limit)
  }

  /** The speeds the cruise loop writes into `count` consecutive waypoints. */
  function CruiseProfile(v: real, limit: real, count: nat): seq<real>
  {
    seq(count, k requires 0 <= k => SafeSpeed(CruiseSpeed(v, limit, k + 1), limit))
  }

  /** Each cruise step adds SAFE_ACCEL until the cap: a closed form for the loop. */
  lemma {:induction false} CruiseSpeedClosedForm(v: real, limit: real, k: nat)
    requires k > 0
    ensures CruiseSpeed(v, limit, k) == Accelerated(v, SAFE_ACCEL, limit, k)
  {
    if k > 1 {
      CruiseSpeedClosedForm(v, limit, k - 1);
    }
  }

  /**
   * The cruise profile has one speed per waypoint; the speeds never exceed
   * the limit, never decrease, grow by at most SAFE_ACCEL per waypoint and
   * start at most SAFE_ACCEL above the current speed; the k-th is the current
   * speed plus k + 1 increments, capped.
   */
  lemma CruiseProfileShape(v: real, limit: real, count: nat)
    ensures |CruiseProfile(v, limit, count)| == count
    ensures forall k :: 0 <= k < count ==>
      CruiseProfile(v, limit, count)[k] == Accelerated(v, SAFE_ACCEL, limit, k + 1)
    ensures forall k :: 0 <= k < count ==> CruiseProfile(v, limit, count)[k] <= limit
    ensures forall k :: 0 < k < count ==>
      CruiseProfile(v, limit, count)[k - 1] <= CruiseProfile(v, limit, count)[k]
      <= CruiseProfile(v, limit, count)[k - 1] + SAFE_ACCEL
    ensures 0 < count ==> CruiseProfile(v, limit, count)[0] <= v + SAFE_ACCEL
  {
    var s := CruiseProfile(v, limit, count);
    forall k | 0 <= k < count
      ensures s[k] == Accelerated(v, SAFE_ACCEL, limit, k + 1)
    {
      CruiseSpeedClosedForm(v, limit, k + 1);
    }
  }

  // ----------------------------------------------------------------- brake

  /**
   * What the brake loop works with: the speed limit, the configured braking,
   * stopping and creep values, the car's measured speed, the braking
   * coefficient and the stop waypoint's index.
   */
  datatype BrakePlan = BrakePlan(
    limit: real,
    brakingDistance: real,
    stopDistance: real,
    creepSpeed: real,
    startSpeed: real,
    coeff: real,
    stopIndex: int)

  /**
   * The requested speed for a waypoint before the stop index that lies `wpd`
   * from the stop waypoint, `cur` being the ramp speed so far.
   */
  function BrakeTarget(p: BrakePlan, cur: real, wpd: real): real
  {
    if wpd > p.brakingDistance then Min(cur + RAMP_ACCEL, p.limit)
    else if wpd > p.stopDistance then p.creepSpeed
    else Decelerated(p, wpd)
  }

  /** The linear deceleration used within the stop distance; nothing bounds it below. */
  function Decelerated(p: BrakePlan, wpd: real): real
  {
    p.startSpeed - p.coeff * (p.brakingDistance - wpd)
  }

  /**
   * The speeds the brake loop writes for the window `idxs`, whose waypoints
   * lie `wpd` from the stop waypoint; `cur` is the ramp speed and `found`
   * says whether the stop index was already passed.
   */
  function BrakeSpeeds(p: BrakePlan, idxs: seq<int>, wpd: seq<real>, cur: real, found: bool): (s: seq<real>)
    requires |wpd| == |idxs|
    ensures |s| == |idxs|
    decreases |idxs|
  {
    if idxs == [] then []
    else if found || idxs[0] == p.stopIndex then
      [SafeSpeed(0.0, p.limit)] + BrakeSpeeds(p, idxs[1..], wpd[1..], cur, true)
    else
      var next := if wpd[0] > p.brakingDistance then Min(cur + RAMP_ACCEL, p.limit) else cur;
      [SafeSpeed(BrakeTarget(p, cur, wpd[0]), p.limit)] + BrakeSpeeds(p, idxs[1..], wpd[1..], next, false)
  }

  /** The brake profile of a whole window: the ramp starts at the measured speed. */
  function BrakeProfile(p: BrakePlan, idxs: seq<int>, wpd: seq<real>): seq<real>
    requires |wpd| == |idxs|
  {
    BrakeSpeeds(p, idxs, wpd, p.startSpeed, false)
  }

  /** How many of the first `k` waypoints lie farther than the braking distance from the stop. */
  function FarCount(wpd: seq<real>, brakingDistance: real, k: nat): nat
    requires k <= |wpd|
  {
    if k == 0 then 0
    else (if wpd[0] > brakingDistance then 1 else 0) + FarCount(wpd[1..], brakingDistance, k - 1)
  }

  /** The ramp speed after `r` ramp steps from `cur`. */
  function RampAfter(cur: real, limit: real, r: nat): real
  {
    if r == 0 then cur else Accelerated(cur, RAMP_ACCEL, limit, r)
  }

  /** One more ramp step continues the capped ramp. */
  lemma RampStep(v: real, limit: real, r: nat)
    ensures Min(RampAfter(v, limit, r) + RAMP_ACCEL, limit) == Accelerated(v, RAMP_ACCEL, limit, r + 1)
  {
    var a := v + r as real * RAMP_ACCEL;
    assert RAMP_ACCEL == 0.25;
    assert v + (r + 1) as real * RAMP_ACCEL == a + RAMP_ACCEL;
    if r == 0 {
      assert a == v;
    }
    if a <= limit {
      assert Min(a, limit) == a;
    } else {
      assert Min(a, limit) == limit && limit < a + RAMP_ACCEL;
    }
  }

  /** Once the stop index has been passed, every later waypoint gets speed 0 (cut to the limit). */
  lemma {:induction false} BrakeZeroAfterFound(p: BrakePlan, idxs: seq<int>, wpd: seq<real>, cur: real, k: nat)
    requires |wpd| == |idxs| && k < |idxs|
    ensures BrakeSpeeds(p, idxs, wpd, cur, true)[k] == SafeSpeed(0.0, p.limit)
  {
    if k > 0 {
      BrakeZeroAfterFound(p, idxs[1..], wpd[1..], cur, k - 1);
    }
  }

  /** The waypoint at the stop index and every later one in the window get speed 0. */
  lemma {:induction false} BrakeZeroFromStop(p: BrakePlan, idxs: seq<int>, wpd: seq<real>, cur: real, found: bool, j: nat, k: nat)
    requires |wpd| == |idxs| && j <= k < |idxs|
    requires found || idxs[j] == p.stopIndex
    ensures BrakeSpeeds(p, idxs, wpd, cur, found)[k] == SafeSpeed(0.0, p.limit)
  {
    if found {
      BrakeZeroAfterFound(p, idxs, wpd, cur, k);
    } else if idxs[0] == p.stopIndex {
      if k > 0 {
        BrakeZeroAfterFound(p, idxs[1..], wpd[1..], cur, k - 1);
      }
    } else {
      var next := if wpd[0] > p.brakingDistance then Min(cur + RAMP_ACCEL, p.limit) else cur;
      BrakeZeroFromStop(p, idxs[1..], wpd[1..], next, false, j - 1, k - 1);
    }
  }

  /**
   * Before the stop index is reached, waypoint `k` gets the brake target
   * computed from the ramp speed after the far waypoints before it.
   */
  lemma {:induction false} BrakeBeforeStop(p: BrakePlan, idxs: seq<int>, wpd: seq<real>, cur: real, k: nat)
    requires |wpd| == |idxs| && k < |idxs|
    requires forall j :: 0 <= j <= k ==> idxs[j] != p.stopIndex
    ensures BrakeSpeeds(p, idxs, wpd, cur, false)[k]
         == SafeSpeed(BrakeTarget(p, RampAfter(cur, p.limit, FarCount(wpd, p.brakingDistance, k)), wpd[k]), p.limit)
  {
    if k > 0 {
      var next := if wpd[0] > p.brakingDistance then Min(cur + RAMP_ACCEL, p.limit) else cur;
      assert forall j :: 0 <= j <= k - 1 ==> idxs[1..][j] == idxs[j + 1];
      BrakeBeforeStop(p, idxs[1..], wpd[1..], next, k - 1);
      var r := FarCount(wpd[1..], p.brakingDistance, k - 1);
      assert RampAfter(next, p.limit, r)
          == RampAfter(cur, p.limit, FarCount(wpd, p.brakingDistance, k));
    }
  }

  /**
   * The brake profile, waypoint by waypoint: 0 at and after the stop index;
   * before it, a ramp of RAMP_ACCEL per far waypoint (farther than the
   * braking distance) capped at the limit, the creep speed between the stop
   * distance and the braking distance, and the linear deceleration
   * startSpeed - coeff * (brakingDistance - wpd) within the stop distance;
   * each value is cut to the limit and never raised.
   */
  lemma BrakeProfileCases(p: BrakePlan, idxs: seq<int>, wpd: seq<real>, k: nat)
    requires |wpd| == |idxs| && k < |idxs|
    ensures BrakeProfile(p, idxs, wpd)[k] <= p.limit
    ensures (exists j :: 0 <= j <= k && idxs[j] == p.stopIndex) ==>
      BrakeProfile(p, idxs, wpd)[k] == Min(0.0, p.limit)
    ensures (forall j :: 0 <= j <= k ==> idxs[j] != p.stopIndex) ==>
      BrakeProfile(p, idxs, wpd)[k] ==
        if wpd[k] > p.brakingDistance then
          Accelerated(p.startSpeed, RAMP_ACCEL, p.limit, FarCount(wpd, p.brakingDistance, k) + 1)
        else if wpd[k] > p.stopDistance then Min(p.creepSpeed, p.limit)
        else Min(Decelerated(p, wpd[k]), p.limit)
  {
    if j :| 0 <= j <= k && idxs[j] == p.stopIndex {
      BrakeZeroFromStop(p, idxs, wpd, p.startSpeed, false, j, k);
    } else {
      BrakeBeforeStop(p, idxs, wpd, p.startSpeed, k);
      var r := FarCount(wpd, p.brakingDistance, k);
      RampStep(p.startSpeed, p.limit, r);
      assert BrakeProfile(p, idxs, wpd)[k]
          == SafeSpeed(BrakeTarget(p, RampAfter(p.startSpeed, p.limit, r), wpd[k]), p.limit);
      if wpd[k] > p.brakingDistance {
        assert BrakeProfile(p, idxs, wpd)[k] == Accelerated(p.startSpeed, RAMP_ACCEL, p.limit, r + 1);
      } else if wpd[k] > p.stopDistance {
        assert BrakeProfile(p, idxs, wpd)[k] == Min(p.creepSpeed, p.limit);
      } else {
        assert BrakeProfile(p, idxs, wpd)[k] == Min(Decelerated(p, wpd[k]), p.limit);
      }
    }
  }
}
