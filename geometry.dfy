/**
 * Geometry shared by the waypoint updater and the traffic-light detector.
 *
 * The system works with Euclidean distances (a square root) and with a yaw
 * rotation taken from a quaternion (a sine and a cosine). Neither numeric
 * computation is part of this model: a distance is any function `Metric`
 * from two points to a real, and the forward component of a target seen from
 * the car is any function `Frame` from a pose and a point to a real. Every
 * comparison the nodes make on these values is modelled exactly.
 */
module Geometry {

  datatype Point = Point(x: real, y: real, z: real)

  /** Orientation as the quaternion carried by a pose message. */
  datatype Quaternion = Quaternion(x: real, y: real, z: real, w: real)

  datatype Pose = Pose(position: Point, orientation: Quaternion)

  /** Distance between two points; the argument order is kept as each call site has it. */
  type Metric = (Point, Point) -> real

  /**
   * The x-component of `target` after shifting it to the pose's origin and
   * rotating it by minus the pose's yaw: positive means ahead of the car.
   */
  type Frame = (Pose, Point) -> real

  /**
   * The waypoint updater's behind test: only a strictly positive rotated x is
   * ahead, so a target exactly abeam (rotated x of 0) counts as behind.
   */
  predicate IsBehind(frame: Frame, pose: Pose, target: Point): (behind: bool)
    ensures behind <==> frame(pose, target) <= 0.0
    ensures frame(pose, target) == 0.0 ==> behind
  {
    !(frame(pose, target) > 0.0)
  }
}
