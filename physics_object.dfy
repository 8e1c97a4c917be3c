/**
 * A rigid body's physical state (PhysicsObject): mass, velocities, the forces
 * accumulated for this frame, the axis locks, and the sleep bookkeeping that
 * lets a body that has stopped moving drop out of the broad phase.
 *
 * The body's transform belongs to its GameObject; the operations that read
 * the transform's position take it as a parameter.
 */
module Bodies {
  import opened Common

  /** FLT_MIN, the smallest positive normalised float: 2^-126. */
  const FltMin: real := 1.0 / 85070591730234615865843651857942052864.0

  /** The constant that scales both sleep thresholds in AddSleepProgress. */
  const CheckConstant: real := 0.75

  /** The part of a body that AddSleepProgress reads and writes. */
  datatype SleepState = SleepState(sleep: bool, progress: real, initial: Vec3, last: Vec3)

  /** Below this per-step displacement a body counts as still: half the awake bound when asleep. */
  function StillBound(dt: real, asleep: bool): real
  {
    dt * CheckConstant * (if asleep then 0.5 else 4.0)
  }

  /**
   * One call of AddSleepProgress at the body's current position.
   * An awake body that stays still first records where it stopped, then
   * accumulates time; once a second has built up it falls asleep if it is
   * still close to where it stopped, and starts over otherwise.
   */
  function SleepStep(s: SleepState, dt: real, current: Vec3): (r: SleepState)
    // the position is always remembered for the next step
    ensures r.last == current
    // a body that moved too far wakes up and loses its progress
    ensures !ShorterThan(Sub(current, s.last), StillBound(dt, s.sleep)) ==> !r.sleep && r.progress == 0.0
    // a sleeping body that stays still stays asleep, and nothing else changes
    ensures s.sleep && ShorterThan(Sub(current, s.last), StillBound(dt, s.sleep)) ==> r == s.(last := current)
    // an awake body falls asleep exactly when it stayed still, had built up a
    // second of progress, and is still close to where it first stopped
    ensures !s.sleep ==>
      (r.sleep <==> ShorterThan(Sub(current, s.last), StillBound(dt, false))
                    && s.progress >= 1.0
                    && ShorterThan(Sub(current, s.initial), (s.progress + dt) * CheckConstant))
    // the first still step of an awake body starts the count at FLT_MIN from here
    ensures !s.sleep && s.progress == 0.0 && ShorterThan(Sub(current, s.last), StillBound(dt, false)) ==>
      r.progress == FltMin && r.initial == current
    // the progress is never left negative by a reset
    ensures s.progress >= 0.0 && dt >= 0.0 ==> r.progress >= 0.0
  {
    if ShorterThan(Sub(current, s.last), StillBound(dt, s.sleep)) then
      if !s.sleep then
        if s.progress == 0.0 then
          SleepState(false, FltMin, current, current)
        else if s.progress >= 1.0 then
          if ShorterThan(Sub(current, s.initial), (s.progress + dt) * CheckConstant) then
            s.(sleep := true, last := current)
          else
            s.(progress := 0.0, last := current)
        else
          s.(progress := s.progress + dt, last := current)
      else
        s.(last := current)
    else
      SleepState(false, 0.0, s.initial, current)
  }

  class PhysicsObject {
    var inverseMass: real
    var elasticity: real
    var friction: real

    var sleep: bool
    var sleepProgress: real

    var initialPosition: Vec3
    var lastPosition: Vec3

    var linearVelocity: Vec3
    var force: Vec3

    var angularVelocity: Vec3
    var torque: Vec3
    var inverseInertia: Vec3
    var inverseInertiaTensor: Mat3
    var lockedAxes: Vec3

    /** The sleep bookkeeping as one value. */
    function Sleep(): SleepState
      reads this
    {
      SleepState(sleep, sleepProgress, initialPosition, lastPosition)
    }

    /**
     * A body attached to a transform at transformPosition. The source leaves
     * sleepProgress uninitialised; the model starts it at zero.
     */
    constructor (transformPosition: Vec3, sleep: bool)
      ensures inverseMass == 1.0 && elasticity == 0.8 && friction == 0.8
      ensures lockedAxes == Vec3(1.0, 1.0, 1.0)
      ensures this.sleep == sleep && sleepProgress == 0.0
      ensures initialPosition == transformPosition && lastPosition == transformPosition
      ensures linearVelocity == Zero && angularVelocity == Zero && force == Zero && torque == Zero
    {
      initialPosition := transformPosition;
      lastPosition := transformPosition;
      inverseMass := 1.0;
      elasticity := 0.8;
      friction := 0.8;
      lockedAxes := Vec3(1.0, 1.0, 1.0);
      this.sleep := sleep;
      sleepProgress := 0.0;
      linearVelocity := Zero;
      force := Zero;
      angularVelocity := Zero;
      torque := Zero;
      inverseInertia := Zero;
      inverseInertiaTensor := Identity;
    }

    function GetLinearVelocity(): Vec3 reads this { linearVelocity }

    function GetAngularVelocity(): Vec3 reads this { angularVelocity }

    function GetInverseMass(): real reads this { inverseMass }

    function GetSleepState(): bool reads this { sleep }

    method SetLinearVelocity(v: Vec3)
      modifies this`linearVelocity
      ensures GetLinearVelocity() == v
    {
      linearVelocity := v;
    }

    method SetAngularVelocity(v: Vec3)
      modifies this`angularVelocity
      ensures GetAngularVelocity() == v
    {
      angularVelocity := v;
    }

    /** A body given zero inverse mass (an immovable body) is put to sleep. */
    method SetInverseMass(invMass: real)
      modifies this`inverseMass, this`sleep
      ensures GetInverseMass() == invMass
      ensures sleep == (old(sleep) || invMass == 0.0)
    {
      inverseMass := invMass;
      if invMass == 0.0 {
        sleep := true;
      }
    }

    /** Wakes the body; waking a sleeping body also restarts its sleep progress. */
    method SetNotSleeping()
      modifies this`sleep, this`sleepProgress
      ensures !sleep
      ensures sleepProgress == if old(sleep) then 0.0 else old(sleepProgress)
    {
      if sleep {
        sleepProgress := 0.0;
      }
      sleep := false;
    }

    /** A locked axis gets factor 0 in lockedAxes, a free one factor 1. */
    method SetAxisLock(lockX: bool, lockY: bool, lockZ: bool)
      modifies this`lockedAxes
      ensures lockedAxes == Vec3(if lockX then 0.0 else 1.0, if lockY then 0.0 else 1.0, if lockZ then 0.0 else 1.0)
    {
      lockedAxes := Vec3(if lockX then 0.0 else 1.0, if lockY then 0.0 else 1.0, if lockZ then 0.0 else 1.0);
    }

    /** The velocity change is the tensor applied to the impulse, with locked axes zeroed. */
    method ApplyAngularImpulse(impulse: Vec3)
      modifies this`angularVelocity
      ensures angularVelocity == Add(old(angularVelocity), Mul(Transform(inverseInertiaTensor, impulse), lockedAxes))
      ensures lockedAxes.x == 0.0 ==> angularVelocity.x == old(angularVelocity.x)
      ensures lockedAxes.y == 0.0 ==> angularVelocity.y == old(angularVelocity.y)
      ensures lockedAxes.z == 0.0 ==> angularVelocity.z == old(angularVelocity.z)
    {
      angularVelocity := Add(angularVelocity, Mul(Transform(inverseInertiaTensor, impulse), lockedAxes));
    }

    /** The velocity change is the impulse scaled by the inverse mass: none for an immovable body. */
    method ApplyLinearImpulse(impulse: Vec3)
      modifies this`linearVelocity
      ensures linearVelocity == Add(old(linearVelocity), Scale(impulse, inverseMass))
      ensures inverseMass == 0.0 ==> linearVelocity == old(linearVelocity)
    {
      linearVelocity := Add(linearVelocity, Scale(impulse, inverseMass));
    }

    /** Accumulates a force through the centre of mass and wakes the body. */
    method AddForce(addedForce: Vec3)
      modifies this`force, this`sleep, this`sleepProgress
      ensures force == Add(old(force), addedForce)
      ensures !sleep
      ensures sleepProgress == if old(sleep) then 0.0 else old(sleepProgress)
    {
      force := Add(force, addedForce);
      SetNotSleeping();
    }

    /**
     * Accumulates a force applied at a world position: the force, and the
     * torque of its lever arm from the body's position; wakes the body.
     */
    method AddForceAtPosition(addedForce: Vec3, position: Vec3, transformPosition: Vec3)
      modifies this`force, this`torque, this`sleep, this`sleepProgress
      ensures force == Add(old(force), addedForce)
      ensures torque == Add(old(torque), Cross(Sub(position, transformPosition), addedForce))
      ensures position == transformPosition ==> torque == old(torque)
      ensures !sleep
      ensures sleepProgress == if old(sleep) then 0.0 else old(sleepProgress)
    {
      var localPos := Sub(position, transformPosition);
      force := Add(force, addedForce);
      torque := Add(torque, Cross(localPos, addedForce));
      SetNotSleeping();
    }

    method AddTorque(addedTorque: Vec3)
      modifies this`torque, this`sleep, this`sleepProgress
      ensures torque == Add(old(torque), addedTorque)
      ensures !sleep
      ensures sleepProgress == if old(sleep) then 0.0 else old(sleepProgress)
    {
      torque := Add(torque, addedTorque);
      SetNotSleeping();
    }

    method ClearForces()
      modifies this`force, this`torque
      ensures force == Zero && torque == Zero
    {
      force := Zero;
      torque := Zero;
    }

    /** Advances the sleep bookkeeping by dt with the body at currentPosition. */
    method AddSleepProgress(dt: real, currentPosition: Vec3)
      modifies this`sleep, this`sleepProgress, this`initialPosition, this`lastPosition
      ensures Sleep() == SleepStep(old(Sleep()), dt, currentPosition)
    {
      var distanceSinceLast := Sub(currentPosition, lastPosition);
      if ShorterThan(distanceSinceLast, StillBound(dt, sleep)) {
        if !sleep {
          if sleepProgress == 0.0 {
            initialPosition := currentPosition;
            sleepProgress := FltMin;
          } else if sleepProgress >= 1.0 {
            var distanceSinceFirst := Sub(currentPosition, initialPosition);
            if ShorterThan(distanceSinceFirst, (sleepProgress + dt) * CheckConstant) {
              sleep := true;
            } else {
              sleepProgress := 0.0;
            }
          } else {
            sleepProgress := sleepProgress + dt;
          }
        }
      } else {
        sleepProgress := 0.0;
        SetNotSleeping();
      }
      lastPosition := currentPosition;
    }
  }
}
