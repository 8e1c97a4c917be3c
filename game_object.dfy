/**
 * GameObject: the per-object state the world and the physics system share:
 * its world ID, its components, its contact coefficients, and the
 * broadphase box it caches from its collision volume.
 *
 * The list of tree nodes that hold an object (owningNodes) and the
 * operations on it live with the tree that owns both sides of that
 * relation: see OctTrees.OctTree.owning.
 */
module Objects {
  import opened Common
  import opened Bodies

  /**
   * A collision volume, by the VolumeType branches UpdateBroadphaseAABB takes;
   * OtherVolume is any other type (capsule, mesh, compound), which it ignores.
   */
  datatype Volume =
    | AABBVolume(halfDims: Vec3)
    | SphereVolume(radius: real)
    | OBBVolume(halfDims: Vec3)
    | OtherVolume

  /** A render or network component, by handle. */
  type ComponentId = nat

  /**
   * The broadphase half-size UpdateBroadphaseAABB caches for a volume under
   * the transform's orientation matrix; cached is the value it had.
   */
  function BroadphaseExtent(v: Volume, orientation: Mat3, cached: Vec3): Vec3
  {
    match v
    case AABBVolume(h) => h
    case SphereVolume(r) => Vec3(r, r, r)
    case OBBVolume(h) => Transform(AbsMat(orientation), h)
    case OtherVolume => cached
  }

  // ------------------------------------------------- the box bounds the volume

  lemma AbsMul(a: real, b: real)
    ensures AbsReal(a * b) == AbsReal(a) * AbsReal(b)
  {
    if a < 0.0 && b < 0.0 {
      assert a * b == (-a) * (-b);
    } else if a < 0.0 {
      assert -(a * b) == (-a) * b;
    } else if b < 0.0 {
      assert -(a * b) == a * (-b);
    }
  }

  /** |a c| <= |a| h when |c| <= h; the products are passed in as p and b. */
  lemma MulBound(a: real, c: real, h: real, k: real, p: real, b: real)
    requires AbsReal(c) <= h && k == AbsReal(a) && p == a * c && b == k * h
    ensures AbsReal(p) <= b
  {
    AbsMul(a, c);
    assert k * AbsReal(c) <= k * h by {
      assert k * (h - AbsReal(c)) >= 0.0;
    }
  }

  /** One row of the rotated box: |row . c| <= |row| . h for a point c inside the half-sizes h. */
  lemma RowBound(row: Vec3, h: Vec3, c: Vec3)
    requires AbsReal(c.x) <= h.x && AbsReal(c.y) <= h.y && AbsReal(c.z) <= h.z
    ensures AbsReal(Dot(row, c)) <= Dot(AbsVec(row), h)
  {
    ScalarRow(row.x, row.y, row.z, c.x, c.y, c.z, h.x, h.y, h.z, Dot(row, c), Dot(AbsVec(row), h));
  }

  /** RowBound on the nine scalars, with the two dot products passed in as d and e. */
  lemma ScalarRow(m0: real, m1: real, m2: real, c0: real, c1: real, c2: real, h0: real, h1: real, h2: real, d: real, e: real)
    requires AbsReal(c0) <= h0 && AbsReal(c1) <= h1 && AbsReal(c2) <= h2
    requires d == m0 * c0 + m1 * c1 + m2 * c2
    requires e == AbsReal(m0) * h0 + AbsReal(m1) * h1 + AbsReal(m2) * h2
    ensures AbsReal(d) <= e
  {
    MulBound(m0, c0, h0, AbsReal(m0), m0 * c0, AbsReal(m0) * h0);
    MulBound(m1, c1, h1, AbsReal(m1), m1 * c1, AbsReal(m1) * h1);
    MulBound(m2, c2, h2, AbsReal(m2), m2 * c2, AbsReal(m2) * h2);
    SumBound(m0 * c0, m1 * c1, m2 * c2, AbsReal(m0) * h0, AbsReal(m1) * h1, AbsReal(m2) * h2);
  }

  /** The triangle inequality for three terms. */
  lemma SumBound(p: real, q: real, s: real, bp: real, bq: real, bs: real)
    requires AbsReal(p) <= bp && AbsReal(q) <= bq && AbsReal(s) <= bs
    ensures AbsReal(p + q + s) <= bp + bq + bs
  {
  }

  /** Point c lies in the origin-centred box of half-sizes e. */
  predicate InBox(c: Vec3, e: Vec3)
  {
    AbsReal(c.x) <= e.x && AbsReal(c.y) <= e.y && AbsReal(c.z) <= e.z
  }

  /**
   * The cached extent bounds the volume: every point of an oriented box, once
   * rotated into the world, lies inside the axis-aligned box of that extent.
   */
  lemma ExtentBoundsVolume(v: Volume, orientation: Mat3, cached: Vec3, c: Vec3)
    requires v.OBBVolume? && InBox(c, v.halfDims)
    ensures InBox(Transform(orientation, c), BroadphaseExtent(v, orientation, cached))
  {
    RowBound(orientation.r0, v.halfDims, c);
    RowBound(orientation.r1, v.halfDims, c);
    RowBound(orientation.r2, v.halfDims, c);
  }

  /** An unrotated oriented box caches exactly its half-sizes, as an axis-aligned one does. */
  lemma ExtentUnrotated(h: Vec3, cached: Vec3)
    ensures BroadphaseExtent(OBBVolume(h), Identity, cached) == BroadphaseExtent(AABBVolume(h), Identity, cached)
  {
  }

  class GameObject {
    /** The object's address: the handle the physics system and its tree know it by. */
    const address: ObjId

    var name: string
    var worldID: int
    var isActive: bool

    var boundingVolume: Option<Volume>
    var physicsObject: Option<PhysicsObject>
    var renderObject: Option<ComponentId>
    var networkObject: Option<ComponentId>

    /** The transform's position, and the rotation matrix of its orientation. */
    var position: Vec3
    var orientation: Mat3

    var cRestitution: real
    var cFriction: real

    var broadphaseAABB: Vec3

    /** A new object: no world ID (-1), active, no components, both coefficients 0.66. */
    constructor (objectName: string, address: ObjId)
      ensures this.address == address
      ensures name == objectName && worldID == -1 && isActive
      ensures boundingVolume == None && physicsObject == None && renderObject == None && networkObject == None
      ensures cRestitution == 0.66 && cFriction == 0.66
    {
      this.address := address;
      name := objectName;
      worldID := -1;
      isActive := true;
      boundingVolume := None;
      physicsObject := None;
      renderObject := None;
      networkObject := None;
      position := Zero;
      orientation := Identity;
      cRestitution := 0.66;
      cFriction := 0.66;
      broadphaseAABB := Zero;
    }

    function GetBoundingVolume(): Option<Volume> reads this { boundingVolume }

    function GetPhysicsObject(): Option<PhysicsObject> reads this { physicsObject }

    function GetRenderObject(): Option<ComponentId> reads this { renderObject }

    function GetNetworkObject(): Option<ComponentId> reads this { networkObject }

    function IsActive(): bool reads this { isActive }

    function GetName(): string reads this { name }

    function GetWorldID(): int reads this { worldID }

    function getCRest(): real reads this { cRestitution }

    function getCFric(): real reads this { cFriction }

    method SetBoundingVolume(vol: Option<Volume>)
      modifies this`boundingVolume
      ensures GetBoundingVolume() == vol
    {
      boundingVolume := vol;
    }

    method SetPhysicsObject(newObject: Option<PhysicsObject>)
      modifies this`physicsObject
      ensures GetPhysicsObject() == newObject
    {
      physicsObject := newObject;
    }

    method SetRenderObject(newObject: Option<ComponentId>)
      modifies this`renderObject
      ensures GetRenderObject() == newObject
    {
      renderObject := newObject;
    }

    method SetNetworkObject(newObject: Option<ComponentId>)
      modifies this`networkObject
      ensures GetNetworkObject() == newObject
    {
      networkObject := newObject;
    }

    method SetWorldID(newID: int)
      modifies this`worldID
      ensures GetWorldID() == newID
    {
      worldID := newID;
    }

    method setCRest(val: real)
      modifies this`cRestitution
      ensures getCRest() == val
    {
      cRestitution := val;
    }

    method setCFric(val: real)
      modifies this`cFriction
      ensures getCFric() == val
    {
      cFriction := val;
    }

    /** The default collision callbacks do nothing. */
    method OnCollisionBegin(otherObject: GameObject)
      ensures unchanged(this)
    {
    }

    method OnCollisionEnd(otherObject: GameObject)
      ensures unchanged(this)
    {
    }

    /**
     * Reports the cached broadphase half-size: false, with outSize as it was,
     * for an object without a volume; true and the cached box otherwise.
     */
    method GetBroadphaseAABB(outSize: Vec3) returns (ok: bool, out: Vec3)
      ensures ok <==> boundingVolume.Some?
      ensures ok ==> out == broadphaseAABB
      ensures !ok ==> out == outSize
    {
      if boundingVolume.None? {
        return false, outSize;
      }
      return true, broadphaseAABB;
    }

    /** Recomputes the cached broadphase half-size from the volume; nothing without one. */
    method UpdateBroadphaseAABB()
      modifies this`broadphaseAABB
      ensures broadphaseAABB == match boundingVolume
                                case None => old(broadphaseAABB)
                                case Some(v) => BroadphaseExtent(v, orientation, old(broadphaseAABB))
    {
      if boundingVolume.None? {
        return;
      }
      var v := boundingVolume.value;
      if v.AABBVolume? {
        broadphaseAABB := v.halfDims;
      } else if v.SphereVolume? {
        var r := v.radius;
        broadphaseAABB := Vec3(r, r, r);
      } else if v.OBBVolume? {
        var mat := AbsMat(orientation);
        broadphaseAABB := Transform(mat, v.halfDims);
      }
    }
  }
}
