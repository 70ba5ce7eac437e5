/**
 The two small vector types the root-motion code works with: a position
 `Vector` and an Euler angle triple `QAngle`, whose `y` component is yaw.
 */
module Geometry {

  datatype Vec3 = Vec3(x: real, y: real, z: real)

  /** Euler angles; `y` is the yaw about the vertical axis. */
  datatype QAngle = QAngle(x: real, y: real, z: real)

  const Zero := Vec3(0.0, 0.0, 0.0)
  const ZeroAngle := QAngle(0.0, 0.0, 0.0)

  function Add(a: Vec3, b: Vec3): Vec3 {
    Vec3(a.x + b.x, a.y + b.y, a.z + b.z)
  }

  function Sub(a: Vec3, b: Vec3): Vec3 {
    Vec3(a.x - b.x, a.y - b.y, a.z - b.z)
  }

  function Scale(k: real, v: Vec3): Vec3 {
    Vec3(k * v.x, k * v.y, k * v.z)
  }

  function AddAngle(a: QAngle, b: QAngle): QAngle {
    QAngle(a.x + b.x, a.y + b.y, a.z + b.z)
  }

  function ScaleAngle(k: real, a: QAngle): QAngle {
    QAngle(k * a.x, k * a.y, k * a.z)
  }

  /** An angle with only its yaw set, as produced by writing `angle.y` into a zeroed `QAngle`. */
  function Yaw(y: real): QAngle {
    QAngle(0.0, y, 0.0)
  }

  /** Adding a yaw change to a pure yaw change adds the yaws. */
  lemma AddYaw(a: QAngle, y0: real, y1: real)
    requires a == Yaw(y0)
    ensures AddAngle(a, Yaw(y1)) == Yaw(y0 + y1)
  {
  }

  lemma AddZero(v: Vec3)
    ensures Add(Zero, v) == v
  {
  }

  lemma AddAssoc(a: Vec3, b: Vec3, c: Vec3)
    ensures Add(Add(a, b), c) == Add(a, Add(b, c))
  {
  }

  lemma AddZeroRight(v: Vec3)
    ensures Add(v, Zero) == v
  {
  }

  /** Two yaw changes in a row are one change by their sum. */
  lemma AddYaws(a: QAngle, y: real, z: real)
    ensures AddAngle(AddAngle(a, Yaw(y)), Yaw(z)) == AddAngle(a, Yaw(y + z))
    ensures AddAngle(a, Yaw(0.0)) == a
  {
  }
}
