/**
 * The two box tests the spatial trees use to place objects
 * (CollisionDetection::AABBTest and CollisionDetection::AABBFullyWithin).
 * Both boxes are given by a centre and half-sizes.
 */
module Collision {
  import opened Common

  /** Boxes overlap: on every axis the centres are strictly closer than the summed half-sizes. */
  predicate AABBTest(posA: Vec3, posB: Vec3, halfA: Vec3, halfB: Vec3)
  {
    AbsReal(posB.x - posA.x) < halfA.x + halfB.x
    && AbsReal(posB.y - posA.y) < halfA.y + halfB.y
    && AbsReal(posB.z - posA.z) < halfA.z + halfB.z
  }

  /** Box A lies inside box B: on every axis A's extent stays within B's. */
  predicate AABBFullyWithin(posA: Vec3, posB: Vec3, halfA: Vec3, halfB: Vec3)
  {
    AbsReal(posB.x - posA.x) + halfA.x <= halfB.x
    && AbsReal(posB.y - posA.y) + halfA.y <= halfB.y
    && AbsReal(posB.z - posA.z) + halfA.z <= halfB.z
  }
}
