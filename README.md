# Waypoint updater and traffic-light detector, modelled in Dafny

This project models the two planning nodes of a self-driving car stack (the
ROS nodes `waypoint_updater` and `tl_detector`) and proves what their code
promises.

**Waypoint updater** (`waypoint_updater.dfy`, module `Waypoints`, with
`speed_profile.dfy` and `scans.dfy`). Each pass of its publishing loop does
four things:

- It locates the car on the base path. The first pass does a full scan.
  Later passes walk forward, with wrap-around, from the last index. Then it
  steps one index ahead when that waypoint is behind the car.
- It keeps the stop waypoint reported by the detector only when that index
  falls inside the 25-waypoint lookahead window.
- It writes a cruise or brake speed profile into the base waypoints of the
  window, in place.
- It publishes those waypoints.

The node is a class. Its base-waypoint speeds are an `array<real>`, which the
generation loops overwrite. A generated lane is a sequence of base indices,
read back from the array when it is published. The node publishes its base
waypoint objects by reference, so when the path is shorter than the window,
one waypoint object appears twice in the lane and carries the later write;
the model does the same.

**Traffic-light detector** (`tl_detector.dfy`, module `TrafficLights`, with
`debounce.dfy`). For each camera frame it does three things:

- It scans the configured stop lines in order. A line is accepted when it
  lies within 200 of the car and sits within 1 of the waypoint where a scan
  from index 0 stops: the end of the first strictly decreasing run of
  distances, not necessarily the nearest waypoint. That waypoint's index must
  also be below 150 and below that of every line accepted before it.
- For each accepted line it looks for the nearest reported light within 50
  of the line's waypoint and strictly closer to the waypoint two further
  along than to the line's waypoint. The light kept at the end is
  the one of the last accepted line that has such a light; a later accepted
  line without one does not discard it. The classifier judges that light.
- It passes the result through a debouncer. The debouncer first commits a
  state on its fourth consecutive identical frame, and commits again on
  every further one, publishing that frame's own waypoint index.

The detector is a class holding the pose, path, lights and the four
debouncer fields.

Euclidean distance is a parameter `d: (Point, Point) -> real`, applied with
the argument order of each call site. The yaw-rotated x coordinate of the
is-behind test is a parameter `frame: (Pose, Point) -> real`. The image
classifier is a parameter `classify: Light -> LightState`. Numbers are
`real`. Python's `%` agrees with Dafny's for the positive moduli used here.

Points where the code behaves differently from what a reader of the node
might expect, all modelled as the code does them:

- A rotated x of exactly 0 counts as behind, not ahead.
- The behind correction does not wrap. It is not re-checked, so the located
  waypoint can still be behind the car.
- Brake speeds have only the upper clamp, so they can be negative
  (`Waypoints.BrakeSpeedCanBeNegative`).
- Braking at a measured speed of 0 raises a division by zero. An empty base
  path also raises, in the behind test: no waypoint is ever found, and the
  test reads the position of a missing waypoint. Neither yields an empty
  trajectory, so the model has `ZeroDivision` and `Crashed` outcomes.
- The resumed search starts from the last index only when that index is
  truthy. A last index of 0 forces a full scan.
- A new light state is committed on its fourth consecutive frame, not its
  third. The counter restarts at 0 on a change and is incremented on every
  frame.
- The detector's closest-waypoint search stops at the first waypoint whose
  successor is no closer. It returns that first local minimum of the
  distances, which need not be the nearest waypoint. Stop lines are accepted
  or rejected by their distance to it.
- Reading the waypoint two past an accepted stop line can raise an
  IndexError. The model has an `IndexError` outcome for it.

## Model

| member | source | states |
|---|---|---|
| Geometry.IsBehind | ros/src/waypoint_updater/waypoint_updater.py:69-94 | a waypoint is behind exactly when its rotated x is not positive; x = 0 counts as behind |
| Scans.FirstMinimum | ros/src/waypoint_updater/waypoint_updater.py:122-129 | the full scan returns the smallest index attaining the minimum distance |
| Scans.FirstMinimumFrom | ros/src/waypoint_updater/waypoint_updater.py:124-129 | continuing the scan from any prefix whose best is known yields the first minimum of the whole list |
| Scans.DescentEnd | ros/src/tl_detector/tl_detector.py:108-115 | the early-exit walk stops at the end of the strictly decreasing run from index 0: last index, or the next distance is not smaller |
| Scans.DescentEndFrom | ros/src/waypoint_updater/waypoint_updater.py:112-121 | continuing the walk after a strictly decreasing prefix ends at the run's end, no earlier than where it resumed |
| Scans.FirstMinimumUnique | ros/src/waypoint_updater/waypoint_updater.py:123-129 | the first minimum is unique, so the scan's result is determined by the distances |
| Scans.DescentEndUnique | ros/src/tl_detector/tl_detector.py:108-115 | the end of the descending run is unique |
| Scans.DescentEndIsFirstMinimum | ros/src/tl_detector/tl_detector.py:111-115 | when distances strictly decrease up to the first global minimum, the walk finds that global minimum |
| Scans.DescentEndBelowPrefix | ros/src/tl_detector/tl_detector.py:111-115 | the stopping distance is strictly below every distance the walk passed |
| Waypoints.SearchIndex | ros/src/waypoint_updater/waypoint_updater.py:103-129 | the search result before correction is a valid base index |
| Waypoints.SearchModes | ros/src/waypoint_updater/waypoint_updater.py:111-129 | with no last index, or a last index of 0, the search is the first global minimum; otherwise it is last + m mod n, where m ends the strictly decreasing run read from the last index with wrap-around (at most n waypoints visited) |
| Waypoints.OffsetReaches | ros/src/waypoint_updater/waypoint_updater.py:113 | the wrapped walk from any start reaches any base index after (target − start) mod n steps |
| Waypoints.ResumeAgreesWithScan | ros/src/waypoint_updater/waypoint_updater.py:110-129 | if the minimum is unique and distances strictly decrease from the last index to it, the resumed walk returns the same index as the full scan |
| Waypoints.LocatedIndex | ros/src/waypoint_updater/waypoint_updater.py:131-135 | the located index is the search index or that plus 1, plus 1 exactly when the searched waypoint is behind, never wrapped, so within [0, n] |
| Waypoints.Window | ros/src/waypoint_updater/waypoint_updater.py:233-234 | the window from closest to last has last − closest entries (none if last ≤ closest), each a valid base index |
| Waypoints.WindowIndexInjective | ros/src/waypoint_updater/waypoint_updater.py:147 | positions fewer than n steps apart in a wrapped window name different base waypoints |
| Waypoints.WindowDistinct | ros/src/waypoint_updater/waypoint_updater.py:233-234 | a window no longer than the path names each base waypoint at most once |
| Waypoints.InWindowFrom | ros/src/waypoint_updater/waypoint_updater.py:146-149 | the window loop from position i finds t iff t = (closest + j) mod n for some i ≤ j < 25 |
| Waypoints.GetTrafficWp | ros/src/waypoint_updater/waypoint_updater.py:137-152 | the result is −1 or the received stop index; it is the stop index iff that index was received, is not −1, and equals (closest + i) mod n for some i < 25 |
| Waypoints.ApplyWrites | ros/src/waypoint_updater/waypoint_updater.py:236 | writing speeds at base indices keeps the number of base waypoints |
| Waypoints.ApplyWritesOutside | ros/src/waypoint_updater/waypoint_updater.py:233-237 | a base waypoint outside the window keeps its speed |
| Waypoints.ApplyWritesDistinct | ros/src/waypoint_updater/waypoint_updater.py:252-277 | with distinct window indices, each window waypoint holds exactly the speed written for it |
| Waypoints.ApplyWritesStep | ros/src/waypoint_updater/waypoint_updater.py:233-237 | one more loop iteration adds exactly one write at the next window index |
| Waypoints.PlanWellFormed | ros/src/waypoint_updater/waypoint_updater.py:210-279 | every generation plan writes one speed per window position, at valid base indices |
| Waypoints.StoredLane | ros/src/waypoint_updater/waypoint_updater.py:232-279 | on a path of at least 25 waypoints, the published lane carries exactly the planned speeds, and base waypoints outside the window keep their old speeds |
| SpeedProfile.SafeSpeed | ros/src/waypoint_updater/waypoint_updater.py:327-335 | the stored speed is never above max_vel·KPH_MPS, and equals v when v is at or below it |
| SpeedProfile.CruiseSpeedClosedForm | ros/src/waypoint_updater/waypoint_updater.py:233-237 | after k cruise steps the running speed is min(v + k·SAFE_ACCEL, limit) |
| SpeedProfile.CruiseProfileShape | ros/src/waypoint_updater/waypoint_updater.py:232-238 | the cruise profile has one speed per window waypoint; speeds are non-decreasing, each at most the limit, each at most the previous plus SAFE_ACCEL; the first is at most current_speed + SAFE_ACCEL |
| SpeedProfile.BrakeSpeeds | ros/src/waypoint_updater/waypoint_updater.py:252-277 | the brake loop writes one speed per window waypoint |
| SpeedProfile.RampStep | ros/src/waypoint_updater/waypoint_updater.py:262-264 | one more far waypoint ramps the running speed by SAFE_ACCEL·0.25, capped at the limit |
| SpeedProfile.BrakeZeroAfterFound | ros/src/waypoint_updater/waypoint_updater.py:274-275 | once the stop index is found, every later window waypoint gets speed min(0, limit) |
| SpeedProfile.BrakeZeroFromStop | ros/src/waypoint_updater/waypoint_updater.py:258-260 | the waypoint at the stop index, and every later one in the window, gets speed 0 |
| SpeedProfile.BrakeBeforeStop | ros/src/waypoint_updater/waypoint_updater.py:255-273 | before the stop index, a waypoint's speed is its target given the running speed after the earlier far waypoints' ramps |
| SpeedProfile.BrakeProfileCases | ros/src/waypoint_updater/waypoint_updater.py:250-277 | every brake speed is at most the limit. It is 0 at and after the stop index. Before it: farther than the braking distance, the ramp by SAFE_ACCEL·0.25 per far waypoint, capped; farther than the stop distance, the creep speed; otherwise current_speed − coeff·(braking distance − distance), all capped at the limit |
| Waypoints.BrakeSpeedCanBeNegative | ros/src/waypoint_updater/waypoint_updater.py:246-273 | the decelerating branch has no lower clamp: with the node's default parameters and a car at speed 10 that is 40 from the stop, every waypoint before the stop index at a distance w of at most 5 from the stop waypoint gets −150 + 4·w, at most −130 |
| Waypoints.WaypointUpdater.constructor | ros/src/waypoint_updater/waypoint_updater.py:48-64 | initial state: no path, pose, last index or stop index; speed 0; not braking; braking distance 2·max_vel, creep 5·KPH_MPS, stop distance 5 |
| Waypoints.WaypointUpdater.SetWaypointVelocity | ros/src/waypoint_updater/waypoint_updater.py:327-335 | exactly the one base waypoint's speed changes, to min(v, max_vel·KPH_MPS) |
| Waypoints.WaypointUpdater.ScanAll | ros/src/waypoint_updater/waypoint_updater.py:122-129 | the full-scan loop returns the first minimum of the distances |
| Waypoints.WaypointUpdater.WalkFrom | ros/src/waypoint_updater/waypoint_updater.py:111-121 | the wrapped walk with break returns start + (end of the descending run of the rotated distances) mod n |
| Waypoints.WaypointUpdater.GetClosestWaypoint | ros/src/waypoint_updater/waypoint_updater.py:96-135 | the locator returns the located index for the node's last index, with the behind correction |
| Waypoints.WaypointUpdater.WriteCruise | ros/src/waypoint_updater/waypoint_updater.py:232-238 | the cruise loop returns the window and stores the cruise profile at its indices, in order |
| Waypoints.WaypointUpdater.WriteBrake | ros/src/waypoint_updater/waypoint_updater.py:250-279 | the brake loop returns the window and stores the brake profile for the distances of the window waypoints to the stop waypoint |
| Waypoints.WaypointUpdater.GenerateNextWaypoints | ros/src/waypoint_updater/waypoint_updater.py:210-279 | generation is cruise when not braking; an empty lane when braking with stop index −1; a division by zero when braking at speed 0; otherwise the brake profile with coeff = min(distance to stop, braking distance)/speed. Only window speeds change |
| Waypoints.WaypointUpdater.Tick | ros/src/waypoint_updater/waypoint_updater.py:161-197 | not ready: nothing changes. Empty path, or braking at speed 0: the tick raises. Otherwise apply_brake is set iff the stop index is in the window, the 25-waypoint window is written and published, its speeds are the planned ones (path ≥ 25), and last_waypoint becomes the located index |
| Debounce.RunCountsStreak | ros/src/tl_detector/tl_detector.py:51-54 | from a fresh node, state_count equals the number of consecutive frames at the end that carry the current state |
| Debounce.StreakAtLeastThree | ros/src/tl_detector/tl_detector.py:86 | a count of at least 3 means the last three frames agree |
| Debounce.DebounceFrames | ros/src/tl_detector/tl_detector.py:83-93 | a frame commits and publishes its value (its index if RED, else −1) iff it and the three frames before it carry the same state. Otherwise the committed index and state are unchanged, and the frame publishes nothing if its state differs from the previous one, else the committed index |
| Debounce.CommittedIsRed | ros/src/tl_detector/tl_detector.py:86-89 | the committed index is −1 or the index of a frame classified RED |
| TrafficLights.DistancesFrom | ros/src/tl_detector/tl_detector.py:108-110 | distances from the query point to each waypoint, in path order |
| TrafficLights.NearestOf | ros/src/tl_detector/tl_detector.py:103-117 | the result is (0, FLOAT_MAX) with no distance to start from; otherwise it is the end of the strictly decreasing run from index 0, with its distance |
| TrafficLights.BestLightFrom | ros/src/tl_detector/tl_detector.py:176-189 | continuing the light loop with the best so far yields the first nearest qualifying light, or none if none qualifies |
| TrafficLights.BestLight | ros/src/tl_detector/tl_detector.py:176-189 | no light iff none is within 50 of the stop waypoint and closer to the waypoint two further on; otherwise the first qualifying light of minimal distance |
| TrafficLights.InfoOf | ros/src/tl_detector/tl_detector.py:160-189 | a stop line's summary: a candidate's waypoint index is below 150, a line without the out-of-range flag has two waypoints after its index, and its best light is one of the reported lights |
| TrafficLights.Infos | ros/src/tl_detector/tl_detector.py:159 | one summary per configured stop line, in configuration order |
| TrafficLights.AnyOverflowExists | ros/src/tl_detector/tl_detector.py:175 | the out-of-range read happens from line i on iff some accepted line from i on has no waypoint two further on |
| TrafficLights.SkippedLine | ros/src/tl_detector/tl_detector.py:172 | a stop line not taken is not accepted, and the bound stays the least candidate index |
| TrafficLights.TakenLine | ros/src/tl_detector/tl_detector.py:172-173 | a stop line taken is accepted, and its index becomes the bound, even if no light then matches |
| TrafficLights.CorrelateFromInvariant | ros/src/tl_detector/tl_detector.py:158-189 | the stop-line loop keeps the least candidate index as its bound and the last accepted line's light as its match; it raises iff a later accepted line overflows |
| TrafficLights.InfosWithinHorizon | ros/src/tl_detector/tl_detector.py:172 | every candidate stop line of a frame has its waypoint index below 150 |
| TrafficLights.CorrelateCharacterised | ros/src/tl_detector/tl_detector.py:158-189 | correlation raises iff some accepted stop line has no waypoint two further on. A line is accepted iff it is within 200 of the car, within 1 of its waypoint, below index 150, and below every earlier candidate's index. Otherwise the kept light is that of the last accepted line with a qualifying light: later matches override, later non-matches do not |
| TrafficLights.LastMatchFromAccepted | ros/src/tl_detector/tl_detector.py:172-188 | a kept light and its index come from an accepted stop line with two waypoints after it, as that line's best light |
| TrafficLights.LastMatchInHorizon | ros/src/tl_detector/tl_detector.py:172-188 | a kept light is one of the reported lights, and its stop index is below 150 with two more waypoints after it |
| TrafficLights.NotReadyDetectsNothing | ros/src/tl_detector/tl_detector.py:149-153 | without a pose, a path or any light, the detection is (−1, UNKNOWN) |
| TrafficLights.DetectionInHorizon | ros/src/tl_detector/tl_detector.py:172-196 | a detected stop index is −1 or a waypoint below 150 with two more after it |
| TrafficLights.TLDetector.constructor | ros/src/tl_detector/tl_detector.py:23-54 | initial state: no pose, path or lights; state and last_state UNKNOWN, last_wp −1, state_count 0 |
| TrafficLights.TLDetector.GetClosestWaypoint | ros/src/tl_detector/tl_detector.py:95-117 | with no path, a bare 0. Otherwise: the end of the strictly decreasing run of distances from index 0, with its distance (the first local minimum, not the global one), or (0, FLOAT_MAX) |
| TrafficLights.TLDetector.SelectBestLight | ros/src/tl_detector/tl_detector.py:176-189 | the light loop returns the best light for the stop line, with best restarted at FLOAT_MAX |
| TrafficLights.TLDetector.SelectLight | ros/src/tl_detector/tl_detector.py:158-189 | the stop-line loop computes the characterised correlation, including the out-of-range read |
| TrafficLights.TLDetector.ProcessTrafficLights | ros/src/tl_detector/tl_detector.py:142-196 | raises on the out-of-range read with nothing changed. Otherwise it reports (stop index, classifier state) for a kept light; without one it reports (−1, UNKNOWN) and drops the path |
| TrafficLights.TLDetector.ImageCb | ros/src/tl_detector/tl_detector.py:67-93 | a frame that raises leaves the debouncer and the path alone; otherwise the debouncer fields and the published value are one debounce step on the frame's detection, and the path is dropped exactly when no light is kept |

## Left out

- ROS plumbing is not modelled: node setup, subscribers, publishers, the loop rate, logging, timestamps, YAML configuration and the tf listener. The store-only callbacks (`pose_cb`, `waypoints_cb`, `traffic_cb`, `velocity_cb`) are the class fields being set by the caller between ticks.
- The busy `continue` of the publishing loop is a single `NotReady` outcome. Each tick or frame is one sequential step; the callbacks' concurrency with the loop is not modelled.
- Euclidean distance, `sqrt`, the quaternion-to-yaw conversion and the rotation are parameters. Their numeric accuracy is not modelled, and neither are floating point rounding, infinities or NaN. In particular the updater's scans start from +infinity, which the model writes as "no best yet".
- `get_light_state` (image conversion and the classifier) is the `classify` parameter. Its `has_image` guard is always true after `image_cb`. The classifier itself is not part of this model.
- The unused `car_position` lookup in `process_traffic_lights` and the log calls are left out.
- The detector's `waypoints_cb` is subscribed to both the base and the final waypoints, so its path can be either. The model takes whatever path the field holds.
- `obstacle_cb`, `get_waypoint_velocity`, `__get_lane` (it only wraps the lane in a message) and the updater's unused `distance` helper are not modelled.
- The `waypoints is None` guard of `__generate_next_waypoints` is unreachable from the loop, which checks the path first, so it is not modelled.
- An exception in the loop ends the node. The model reports it as `Crashed` or `Raised` for the one tick or frame and says nothing about later ones.
- Waypoints.StoredLane: states the published speeds only for paths of at least 25 waypoints. On a shorter path a waypoint appears twice in the window, and both copies carry the later write (`ApplyWrites` models this).
- Waypoints.WaypointUpdater.Tick: ties the published speeds to the plan only on paths of at least 25 waypoints, for the same reason.
