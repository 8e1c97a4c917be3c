/**
 * PhysicsSystem: the collision set kept across frames, the broadphase over
 * the octree, the narrow phase and the brute-force detection that fill the
 * set, and the fixed-step update with its adaptive step rate.
 *
 * ObjectIntersection, the geometric test, is the parameter detect; the
 * sleep states of the objects' physics bodies are the set asleep.
 */
module Physics {
  import opened Common
  import opened Contacts
  import OctTreeShape
  import OctTreeWalk
  import OctTreeHeld
  import OctTrees
  import Objects

  /** The step rate the system would like to run at, and its step. */
  const IdealHZ: int := 120
  const IdealDT: real := 1.0 / 120.0

  /** The step of a rate of hz steps a second. */
  function RateDT(hz: int): real
    requires hz >= 1
  {
    1.0 / (hz as real)
  }

  /** The rate's step never drops below the ideal step, nor exceeds a second. */
  lemma RateFloor(hz: int)
    requires 1 <= hz <= IdealHZ
    ensures IdealDT <= RateDT(hz) <= 1.0
  {
    var h := hz as real;
    var r := RateDT(hz);
    assert r * h == 1.0;
    assert r > 0.0;
    MulMono(h * IdealDT, 1.0, r);
    assert r * (h * IdealDT) == (r * h) * IdealDT == IdealDT;
    assert IdealDT <= r * 1.0;
    assert IdealDT <= r;
    MulMono(1.0, h, r);
  }

  lemma MulMono(a: real, b: real, c: real)
    requires a <= b && c >= 0.0
    ensures c * a <= c * b
  {
    assert c * b - c * a == c * (b - a);
  }

  // ------------------------------------------------- the adaptive step rate

  /**
   * The rate rule as written: a frame whose physics took longer than a step
   * halves realHZ (integer division) and doubles realDT; otherwise a frame
   * shorter than half a step doubles realHZ and halves realDT, resetting both
   * to the ideal once realHZ would pass idealHZ.
   */
  function AdaptAsWritten(hz: int, rdt: real, dt: real, updateTime: real): (r: (int, real))
    ensures hz <= IdealHZ ==> r.0 <= IdealHZ
    ensures updateTime > rdt ==> r.1 == rdt * 2.0
  {
    if updateTime > rdt then (CDiv(hz, 2), rdt * 2.0)
    else if dt * 2.0 < rdt then
      if hz * 2 > IdealHZ then (IdealHZ, IdealDT) else (hz * 2, rdt / 2.0)
    else (hz, rdt)
  }

  /** The rate after a run of frames, each a (dt, updateTime) pair, under the rule as written. */
  function FramesAsWritten(hz: int, rdt: real, frames: seq<(real, real)>): (int, real)
    decreases |frames|
  {
    if frames == [] then (hz, rdt)
    else
      var next := AdaptAsWritten(hz, rdt, frames[0].0, frames[0].1);
      FramesAsWritten(next.0, next.1, frames[1..])
  }

  /** n copies of a frame. */
  function Repeat(f: (real, real), n: nat): seq<(real, real)>
  {
    if n == 0 then [] else [f] + Repeat(f, n - 1)
  }

  /**
   * Seven frames whose physics takes 10 s bring realHZ to 0 and realDT to
   * 128 ideal steps; eight idle frames after them halve realDT eight times,
   * to half the ideal step, while realHZ stays 0, so the reset to idealDT
   * never happens.
   */
  lemma RateRunsAway()
    ensures FramesAsWritten(IdealHZ, IdealDT, Repeat((0.0, 10.0), 7) + Repeat((0.0, 0.0), 8)) == (0, IdealDT / 2.0)
  {
    var slow, idle, d := (0.0, 10.0), (0.0, 0.0), IdealDT;
    var rest := Repeat(idle, 8);
    FrameStep(120, d, slow, 6, rest);
    FrameStep(60, d * 2.0, slow, 5, rest);
    FrameStep(30, d * 4.0, slow, 4, rest);
    FrameStep(15, d * 8.0, slow, 3, rest);
    FrameStep(7, d * 16.0, slow, 2, rest);
    FrameStep(3, d * 32.0, slow, 1, rest);
    FrameStep(1, d * 64.0, slow, 0, rest);
    assert Repeat(slow, 0) + rest == rest + [];
    FrameStep(0, d * 128.0, idle, 7, []);
    FrameStep(0, d * 64.0, idle, 6, []);
    FrameStep(0, d * 32.0, idle, 5, []);
    FrameStep(0, d * 16.0, idle, 4, []);
    FrameStep(0, d * 8.0, idle, 3, []);
    FrameStep(0, d * 4.0, idle, 2, []);
    FrameStep(0, d * 2.0, idle, 1, []);
    FrameStep(0, d, idle, 0, []);
    assert Repeat(idle, 0) + [] == [];
  }

  /** The first of n + 1 equal frames, taken off the front of a run. */
  lemma FrameStep(hz: int, rdt: real, f: (real, real), n: nat, rest: seq<(real, real)>)
    ensures FramesAsWritten(hz, rdt, Repeat(f, n + 1) + rest)
            == FramesAsWritten(AdaptAsWritten(hz, rdt, f.0, f.1).0, AdaptAsWritten(hz, rdt, f.0, f.1).1, Repeat(f, n) + rest)
  {
    var fs := Repeat(f, n + 1) + rest;
    assert fs == [f] + (Repeat(f, n) + rest);
    assert fs[0] == f && fs[1..] == Repeat(f, n) + rest;
  }

  /**
   * The rate rule as the design means it: a frame whose physics took longer
   * than a step halves realHZ, but not below 1; a frame shorter than half a
   * step doubles it, but not past idealHZ; realDT is always 1 / realHZ.
   */
  function Adapt(hz: int, dt: real, updateTime: real): (r: int)
    requires 1 <= hz <= IdealHZ
    ensures 1 <= r <= IdealHZ
    ensures updateTime > RateDT(hz) ==> r <= hz && (hz > 1 ==> r < hz)
    ensures updateTime <= RateDT(hz) && dt * 2.0 < RateDT(hz) ==> r >= hz && (hz < IdealHZ ==> r > hz)
    ensures updateTime <= RateDT(hz) && dt * 2.0 >= RateDT(hz) ==> r == hz
  {
    if updateTime > RateDT(hz) then (if hz / 2 < 1 then 1 else hz / 2)
    else if dt * 2.0 < RateDT(hz) then (if hz * 2 > IdealHZ then IdealHZ else hz * 2)
    else hz
  }

  /** The rate after a run of frames under the corrected rule. */
  function Frames(hz: int, frames: seq<(real, real)>): (r: int)
    requires 1 <= hz <= IdealHZ
    ensures 1 <= r <= IdealHZ
    decreases |frames|
  {
    if frames == [] then hz else Frames(Adapt(hz, frames[0].0, frames[0].1), frames[1..])
  }

  /** However the frames run, the corrected rule never steps faster than the ideal rate nor slower than once a second. */
  lemma {:induction false} RateStaysBounded(hz: int, frames: seq<(real, real)>)
    requires 1 <= hz <= IdealHZ
    ensures IdealDT <= RateDT(Frames(hz, frames)) <= 1.0
  {
    RateFloor(Frames(hz, frames));
  }

  // ------------------------------------------------- one fixed step

  /**
   * One pass of the substep loop: IntegrateAccel, collision detection
   * (broadphase and narrow phase, or the brute-force test), the constraint
   * updates with their steps, then IntegrateVelocity, all over dt. pairs
   * are the broadphase pairs its narrow phase tested (none without the
   * broadphase).
   */
  datatype Substep = Substep(dt: real, broad: bool, constraintDts: seq<real>, pairs: seq<Pair>)

  /**
   * Every substep of steps runs over dt, detects as broad says, and makes
   * count constraint updates of dt / count each (none for a count below 1).
   */
  predicate Uniform(steps: seq<Substep>, dt: real, broad: bool, count: int)
  {
    forall s :: s in steps ==>
      s.dt == dt && s.broad == broad && |s.constraintDts| == (if count < 0 then 0 else count)
      && forall d :: d in s.constraintDts ==> count != 0 && d == dt / (count as real)
  }

  /** The loop of UpdateConstraints calls: count of them, each over dt / count. */
  method ConstraintPasses(dt: real, count: int) returns (dts: seq<real>)
    ensures |dts| == if count < 0 then 0 else count
    ensures forall d :: d in dts ==> count != 0 && d == dt / (count as real)
  {
    dts := [];
    var constraintDt := if count == 0 then 0.0 else dt / (count as real);
    var i := 0;
    while i < count
      invariant 0 <= i && |dts| == i
      invariant count >= 0 ==> i <= count
      invariant count < 0 ==> i == 0
      invariant forall d :: d in dts ==> count != 0 && d == dt / (count as real)
    {
      dts := dts + [constraintDt];
      i := i + 1;
    }
  }

  lemma OneMore(n: nat, d: real)
    ensures ((n + 1) as real) * d == (n as real) * d + d
  {
  }

  lemma DivOf(a: real, b: real, d: real)
    requires d != 0.0 && a == b * d
    ensures a / d == b
  {
  }

  lemma StepDown(x: real, d: real)
    requires d > 0.0 && x > d
    ensures (x / d).Floor >= 1
    ensures ((x - d) / d).Floor == (x / d).Floor - 1
  {
    var q := x / d;
    assert q * d == x;
    assert x - d == (q - 1.0) * d;
    DivOf(x - d, q - 1.0, d);
    PositiveFactor(q - 1.0, d);
    assert (q - 1.0).Floor == q.Floor - 1;
  }

  lemma PositiveFactor(a: real, d: real)
    requires d > 0.0 && a * d > 0.0
    ensures a > 0.0
  {
  }

  // ------------------------------------------------- the system

  /** The pair of a world list, i before j, that BasicCollisionDetection tests: both have a physics body. */
  predicate WorldPair(objects: seq<ObjId>, hasPhysics: set<ObjId>, i: int, j: int)
  {
    0 <= i < j < |objects| && objects[i] in hasPhysics && objects[j] in hasPhysics
  }

  /** Key k is a pair BasicCollisionDetection tests before it reaches pair (i, j). */
  ghost predicate TestedBefore(objects: seq<ObjId>, hasPhysics: set<ObjId>, i: int, j: int, k: Pair)
  {
    exists a, b :: (a < i || (a == i && b < j)) && WorldPair(objects, hasPhysics, a, b) && k == (objects[a], objects[b])
  }

  /** Pair (i, j) is the one test between TestedBefore(i, j) and TestedBefore(i, j + 1). */
  lemma TestedStep(objects: seq<ObjId>, hasPhysics: set<ObjId>, i: int, j: int, k: Pair)
    ensures TestedBefore(objects, hasPhysics, i, j + 1, k) <==>
            TestedBefore(objects, hasPhysics, i, j, k) || (WorldPair(objects, hasPhysics, i, j) && k == (objects[i], objects[j]))
  {
    if TestedBefore(objects, hasPhysics, i, j + 1, k) {
      var a, b :| (a < i || (a == i && b < j + 1)) && WorldPair(objects, hasPhysics, a, b) && k == (objects[a], objects[b]);
      if !(a == i && b == j) {
        assert TestedBefore(objects, hasPhysics, i, j, k);
      }
    }
    if WorldPair(objects, hasPhysics, i, j) && k == (objects[i], objects[j]) {
      assert (i < i || (i == i && j < j + 1)) && WorldPair(objects, hasPhysics, i, j) && k == (objects[i], objects[j]);
    }
  }

  /** Row i tests only partners after i, so its first and last points are the ends of the rows. */
  lemma TestedRow(objects: seq<ObjId>, hasPhysics: set<ObjId>, i: int, k: Pair)
    requires 0 <= i
    ensures TestedBefore(objects, hasPhysics, i, i + 1, k) <==> TestedBefore(objects, hasPhysics, i, 0, k)
    ensures TestedBefore(objects, hasPhysics, i, |objects|, k) <==> TestedBefore(objects, hasPhysics, i + 1, 0, k)
    ensures i < |objects| && objects[i] !in hasPhysics ==>
              (TestedBefore(objects, hasPhysics, i + 1, 0, k) <==> TestedBefore(objects, hasPhysics, i, 0, k))
  {
    if TestedBefore(objects, hasPhysics, i, i + 1, k) {
      var a, b :| (a < i || (a == i && b < i + 1)) && WorldPair(objects, hasPhysics, a, b) && k == (objects[a], objects[b]);
      assert (a < i || (a == i && b < 0));
    }
    if TestedBefore(objects, hasPhysics, i + 1, 0, k) {
      var a, b :| (a < i + 1 || (a == i + 1 && b < 0)) && WorldPair(objects, hasPhysics, a, b) && k == (objects[a], objects[b]);
      assert a < i || (a == i && b < |objects|);
      if i < |objects| && objects[i] !in hasPhysics {
        assert a < i || (a == i && b < 0);
      }
    }
    if TestedBefore(objects, hasPhysics, i, |objects|, k) {
      var a, b :| (a < i || (a == i && b < |objects|)) && WorldPair(objects, hasPhysics, a, b) && k == (objects[a], objects[b]);
      assert a < i + 1 || (a == i + 1 && b < 0);
    }
  }

  /**
   * What the set holds under key k after a detection pass: an entry already
   * there stays as it was; otherwise, if the pass tested k (seen) and the
   * pair touches, a new entry with a full countdown.
   */
  function Detected(held: Option<CollisionInfo>, k: Pair, seen: bool,
                    detect: (ObjId, ObjId) -> Option<ContactPoint>, frames: int): Option<CollisionInfo>
  {
    if held.Some? then held
    else if seen && detect(k.0, k.1).Some? then Some(CollisionInfo(k.0, k.1, detect(k.0, k.1).value, frames))
    else None
  }

  /**
   * Key k is one a detection pass tests: one of the pass's broadphase pairs,
   * or, without the broadphase, a pair of world objects with physics bodies.
   */
  ghost predicate PassTested(broad: bool, pairs: seq<Pair>, objects: seq<ObjId>, hasPhysics: set<ObjId>, k: Pair)
  {
    if broad then k in pairs else exists i, j :: WorldPair(objects, hasPhysics, i, j) && k == (objects[i], objects[j])
  }

  /** Key k is tested by the detection pass of one of the substeps. */
  ghost predicate StepsTested(steps: seq<Substep>, objects: seq<ObjId>, hasPhysics: set<ObjId>, k: Pair)
  {
    exists n :: 0 <= n < |steps| && PassTested(steps[n].broad, steps[n].pairs, objects, hasPhysics, k)
  }

  /** One more substep tests exactly what it adds to what the earlier ones tested. */
  lemma StepsTestedSnoc(steps: seq<Substep>, s: Substep, objects: seq<ObjId>, hasPhysics: set<ObjId>, k: Pair)
    ensures StepsTested(steps + [s], objects, hasPhysics, k) <==>
            StepsTested(steps, objects, hasPhysics, k) || PassTested(s.broad, s.pairs, objects, hasPhysics, k)
  {
    var t := steps + [s];
    if StepsTested(t, objects, hasPhysics, k) {
      var n :| 0 <= n < |t| && PassTested(t[n].broad, t[n].pairs, objects, hasPhysics, k);
      if n < |steps| {
        assert t[n] == steps[n];
      }
    }
    if StepsTested(steps, objects, hasPhysics, k) {
      var n :| 0 <= n < |steps| && PassTested(steps[n].broad, steps[n].pairs, objects, hasPhysics, k);
      assert t[n] == steps[n];
    }
    if PassTested(s.broad, s.pairs, objects, hasPhysics, k) {
      assert t[|steps|] == s;
    }
  }

  /** Two detection passes in a row insert what one pass testing both their pairs would. */
  lemma DetectedTwice(held: Option<CollisionInfo>, k: Pair, seen1: bool, seen2: bool,
                      detect: (ObjId, ObjId) -> Option<ContactPoint>, frames: int)
    ensures Detected(Detected(held, k, seen1, detect, frames), k, seen2, detect, frames) ==
            Detected(held, k, seen1 || seen2, detect, frames)
  {
  }

  /** Under every key, cs holds what the detection passes of steps leave when they start from start. */
  ghost predicate DetectedBy(start: seq<CollisionInfo>, cs: seq<CollisionInfo>, steps: seq<Substep>, objects: seq<ObjId>,
                             hasPhysics: set<ObjId>, detect: (ObjId, ObjId) -> Option<ContactPoint>, frames: int)
  {
    forall k :: Find(cs, k) == Detected(Find(start, k), k, StepsTested(steps, objects, hasPhysics, k), detect, frames)
  }

  /** One more substep's detection pass carries DetectedBy over to the longer list of substeps. */
  lemma DetectedByStep(start: seq<CollisionInfo>, before: seq<CollisionInfo>, after: seq<CollisionInfo>, steps: seq<Substep>,
                       s: Substep, objects: seq<ObjId>, hasPhysics: set<ObjId>, detect: (ObjId, ObjId) -> Option<ContactPoint>, frames: int)
    requires DetectedBy(start, before, steps, objects, hasPhysics, detect, frames)
    requires forall k :: Find(after, k) == Detected(Find(before, k), k, PassTested(s.broad, s.pairs, objects, hasPhysics, k), detect, frames)
    ensures DetectedBy(start, after, steps + [s], objects, hasPhysics, detect, frames)
  {
    forall k ensures Find(after, k) == Detected(Find(start, k), k, StepsTested(steps + [s], objects, hasPhysics, k), detect, frames) {
      StepsTestedSnoc(steps, s, objects, hasPhysics, k);
      DetectedTwice(Find(start, k), k, StepsTested(steps, objects, hasPhysics, k),
                    PassTested(s.broad, s.pairs, objects, hasPhysics, k), detect, frames);
    }
  }

  /** An entry standing at a full countdown when the frame ends fires Begin on both of its objects. */
  lemma NewContactBegins(cs: seq<CollisionInfo>, frames: int, k: Pair)
    requires Find(cs, k).Some? && Find(cs, k).value.framesLeft == frames
    ensures Begin(k.0, k.1) in AgeEvents(cs, frames) && Begin(k.1, k.0) in AgeEvents(cs, frames)
  {
    var c := Find(cs, k).value;
    var i :| 0 <= i < |cs| && cs[i] == c;
    BeginFired(cs, frames, k.0, k.1);
    BeginFired(cs, frames, k.1, k.0);
  }

  /** The objects of a node of the tree, or none for an index outside it. */
  function LeafObjs(nodes: seq<OctTreeShape.Node>, m: int): seq<ObjId>
  {
    if 0 <= m < |nodes| then OctTreeShape.Objs(nodes[m].contents) else []
  }

  /** Pair p comes from one of the first k leaves BroadPhase visits. */
  ghost predicate FromLeaves(nodes: seq<OctTreeShape.Node>, visited: seq<NodeId>, k: int, asleep: set<ObjId>, p: Pair)
  {
    exists n, i, j :: 0 <= n < k && n < |visited| && LeafPair(LeafObjs(nodes, visited[n]), asleep, i, j)
                      && p == Canon(LeafObjs(nodes, visited[n])[i], LeafObjs(nodes, visited[n])[j])
  }

  /** Leaf k is the one leaf between FromLeaves(k) and FromLeaves(k + 1). */
  lemma FromLeavesStep(nodes: seq<OctTreeShape.Node>, visited: seq<NodeId>, k: int, asleep: set<ObjId>, p: Pair)
    requires 0 <= k < |visited|
    ensures FromLeaves(nodes, visited, k + 1, asleep, p) <==>
            FromLeaves(nodes, visited, k, asleep, p) ||
            exists i, j :: LeafPair(LeafObjs(nodes, visited[k]), asleep, i, j)
                           && p == Canon(LeafObjs(nodes, visited[k])[i], LeafObjs(nodes, visited[k])[j])
  {
    var l := LeafObjs(nodes, visited[k]);
    if FromLeaves(nodes, visited, k + 1, asleep, p) {
      var n, i, j :| 0 <= n < k + 1 && n < |visited| && LeafPair(LeafObjs(nodes, visited[n]), asleep, i, j)
                     && p == Canon(LeafObjs(nodes, visited[n])[i], LeafObjs(nodes, visited[n])[j]);
      if n == k {
        assert LeafPair(l, asleep, i, j) && p == Canon(l[i], l[j]);
      }
    }
    if exists i, j :: LeafPair(l, asleep, i, j) && p == Canon(l[i], l[j]) {
      var i, j :| LeafPair(l, asleep, i, j) && p == Canon(l[i], l[j]);
      assert 0 <= k < k + 1 && k < |visited| && LeafPair(LeafObjs(nodes, visited[k]), asleep, i, j);
    }
  }

  /** The tree PhysicsSystem starts with and rebuilds on Clear. */
  const WorldSize: Vec3 := Vec3(1024.0, 256.0, 1024.0)

  /** One more entry of the pass: its kept entry and its callbacks come after those of the entries before it. */
  lemma AgeStep(cs: seq<CollisionInfo>, i: int, frames: int)
    requires 0 <= i < |cs|
    ensures Aged(cs[..i + 1]) == Aged(cs[..i]) + (if cs[i].framesLeft - 1 < 0 then [] else [Tick(cs[i])])
    ensures AgeEvents(cs[..i + 1], frames) == AgeEvents(cs[..i], frames) + EntryEvents(cs[i], frames)
  {
    assert cs[..i + 1][..i] == cs[..i];
  }

  /**
   * The body of UpdateCollisionList's loop for one entry c: Begin on both
   * objects when c stands at frames, the countdown down by one, End on both
   * objects when it went negative, and c is kept only otherwise.
   */
  method AgeEntry(c: CollisionInfo, frames: int) returns (keep: seq<CollisionInfo>, fired: seq<Event>)
    ensures keep == (if c.framesLeft - 1 < 0 then [] else [Tick(c)])
    ensures fired == EntryEvents(c, frames)
  {
    var begins: seq<Event> := [];
    if c.framesLeft == frames {
      begins := [Begin(c.a, c.b), Begin(c.b, c.a)];
    }
    var ticked := Tick(c);
    if ticked.framesLeft < 0 {
      fired := begins + [End(ticked.a, ticked.b), End(ticked.b, ticked.a)];
      keep := [];
    } else {
      fired := begins;
      assert fired == fired + [];
      keep := [ticked];
    }
  }

  /**
   * The loop of UpdateCollisionList over a copy of the set, entry by entry
   * in the set's order: the kept entries are one aging pass of cs and the
   * callbacks are those of the pass.
   */
  method AgeCollisions(cs: seq<CollisionInfo>, frames: int) returns (kept: seq<CollisionInfo>, events: seq<Event>)
    ensures kept == Aged(cs)
    ensures events == AgeEvents(cs, frames)
  {
    kept := [];
    events := [];
    for i := 0 to |cs|
      invariant kept == Aged(cs[..i])
      invariant events == AgeEvents(cs[..i], frames)
    {
      AgeStep(cs, i, frames);
      var keep, fired := AgeEntry(cs[i], frames);
      kept := kept + keep;
      events := events + fired;
    }
    assert cs[..|cs|] == cs;
  }

  class PhysicsSystem {
    var tree: OctTrees.OctTree
    var allCollisions: seq<CollisionInfo>
    var broadphaseCollisions: seq<Pair>

    var applyGravity: bool
    var useBroadPhase: bool
    var dTOffset: real
    var globalDamping: real
    var gravity: Vec3
    var constraintIterationCount: int

    /** The rate the fixed step actually runs at, and its step. */
    var realHZ: int
    var realDT: real

    /** The frames a contact stays in the set after it was last inserted. */
    const numCollisionFrames: int

    ghost predicate Valid()
      reads this, tree
    {
      tree.Valid() && tree.Consistent()
      && UniqueKeys(allCollisions) && PairSet(broadphaseCollisions)
      && 1 <= realHZ <= IdealHZ && realDT == RateDT(realHZ)
    }

    /** A new system: gravity (0, -9.8, 0), damping 0.995, no collisions, the ideal rate and an empty 1024 x 256 x 1024 tree. */
    constructor (numCollisionFrames: int)
      ensures Valid() && fresh(tree)
      ensures tree.nodes == [OctTreeShape.Node(1, Zero, WorldSize, true, [], None, [])] && tree.owning == map[]
      ensures tree.maxDepth == 7 && tree.maxSize == 6
      ensures allCollisions == [] && broadphaseCollisions == []
      ensures applyGravity && useBroadPhase && dTOffset == 0.0 && globalDamping == 0.995
      ensures gravity == Vec3(0.0, -9.8, 0.0) && constraintIterationCount == 10
      ensures realHZ == IdealHZ && realDT == IdealDT
      ensures this.numCollisionFrames == numCollisionFrames
    {
      this.numCollisionFrames := numCollisionFrames;
      applyGravity := true;
      useBroadPhase := true;
      dTOffset := 0.0;
      globalDamping := 0.995;
      gravity := Vec3(0.0, -9.8, 0.0);
      constraintIterationCount := 10;
      realHZ := IdealHZ;
      realDT := IdealDT;
      allCollisions := [];
      broadphaseCollisions := [];
      tree := new OctTrees.OctTree(WorldSize, 7, 6);
    }

    method SetGravity(g: Vec3)
      modifies this`gravity
      ensures gravity == g
    {
      gravity := g;
    }

    /**
     * Puts an object in the tree at its position, sized by the broadphase box
     * it recomputes first, asleep or not as its body is; an object without a
     * collision volume stays out of the tree. ok is false where the tree's
     * bookkeeping throws.
     */
    method AddObject(obj: Objects.GameObject) returns (ok: bool)
      requires Valid() && (obj.boundingVolume.Some? ==> obj.physicsObject.Some?)
      modifies obj`broadphaseAABB, tree`nodes, tree`owning
      ensures ok ==> Valid()
      ensures obj.boundingVolume.Some? ==>
                obj.broadphaseAABB == Objects.BroadphaseExtent(obj.boundingVolume.value, obj.orientation, old(obj.broadphaseAABB))
      ensures obj.boundingVolume.None? ==> ok && unchanged(tree)
      ensures obj.boundingVolume.Some? &&
              !OctTreeShape.Overlaps(OctTreeShape.Entry(obj.address, obj.position, obj.broadphaseAABB, obj.physicsObject.value.sleep), old(tree.nodes[0])) ==>
                ok && unchanged(tree)
      // a volume's entry is held wherever the descent from the root takes it; nothing held before is lost
      ensures obj.boundingVolume.Some? && ok ==>
                OctTreeHeld.Refined(old(tree.nodes), tree.nodes, tree.maxDepth)
                && OctTreeHeld.Reaches(tree.nodes, tree.maxDepth, 0,
                     OctTreeShape.Entry(obj.address, obj.position, obj.broadphaseAABB, obj.physicsObject.value.sleep))
      ensures !ok ==> OctTreeHeld.Stuck(tree.nodes)
    {
      obj.UpdateBroadphaseAABB();
      var has, halfSizes := obj.GetBroadphaseAABB(Zero);
      if !has {
        return true;
      }
      ok := tree.Insert(obj.address, obj.position, halfSizes, obj.physicsObject.value.sleep);
    }

    /** Drops every entry of the collision set that involves o; the rest keep their order and countdowns. */
    method RemoveObject(o: ObjId)
      requires Valid()
      modifies this`allCollisions
      ensures Valid()
      ensures allCollisions == Without(old(allCollisions), o)
      ensures forall c :: c in allCollisions <==> c in old(allCollisions) && c.a != o && c.b != o
    {
      var cs := allCollisions;
      var temp: seq<CollisionInfo> := [];
      for i := 0 to |cs|
        invariant temp == Without(cs[..i], o)
        invariant UniqueKeys(temp)
      {
        var c := cs[i];
        assert cs[..i + 1] == cs[..i] + [c];
        assert cs[..i + 1][..i] == cs[..i];
        if c.a != o && c.b != o {
          assert UniqueKeys(cs[..i + 1]);
          WithoutSnoc(cs[..i], c, o);
          temp := SetInsert(temp, c);
        }
      }
      assert cs[..|cs|] == cs;
      WithoutKeeps(cs, o);
      allCollisions := temp;
    }

    /** Forgets every collision and starts over with a new, empty tree. */
    method Clear()
      requires Valid()
      modifies this`allCollisions, this`tree
      ensures Valid() && fresh(tree)
      ensures allCollisions == []
      ensures tree.nodes == [OctTreeShape.Node(1, Zero, WorldSize, true, [], None, [])] && tree.owning == map[]
    {
      allCollisions := [];
      tree := new OctTrees.OctTree(WorldSize, 7, 6);
    }

    /**
     * The end-of-frame pass over the collision set: Begin on both objects of
     * an entry inserted this frame, every countdown down by one, and End on
     * both objects of an entry whose countdown went negative, which leaves
     * the set.
     */
    method UpdateCollisionList() returns (events: seq<Event>)
      requires Valid()
      modifies this`allCollisions
      ensures Valid()
      ensures allCollisions == Aged(old(allCollisions))
      ensures events == AgeEvents(old(allCollisions), numCollisionFrames)
    {
      var kept;
      kept, events := AgeCollisions(allCollisions, numCollisionFrames);
      AgedFind(old(allCollisions), (0, 0));
      allCollisions := kept;
    }

    /**
     * BroadPhase: re-files every awake object in the tree, then gathers,
     * from every non-empty leaf, each pair of its entries that is not asleep
     * on both sides, as (min, max) and once only. visited are the leaves.
     * ok is false where the tree's bookkeeping throws.
     */
    method BroadPhase(objects: seq<ObjId>, asleep: set<ObjId>, pos: ObjId -> Vec3, size: ObjId -> Vec3)
      returns (ok: bool, visited: seq<NodeId>)
      requires Valid()
      modifies this`broadphaseCollisions, tree`nodes, tree`owning
      ensures ok ==> Valid()
      ensures ok ==> forall m :: m in visited <==> OctTreeWalk.Handed(tree.nodes, m)
      ensures ok ==> forall p :: p in broadphaseCollisions <==>
                exists k, i, j :: 0 <= k < |visited| && LeafPair(LeafObjs(tree.nodes, visited[k]), asleep, i, j)
                                  && p == Canon(LeafObjs(tree.nodes, visited[k])[i], LeafObjs(tree.nodes, visited[k])[j])
      ensures !ok ==> OctTreeHeld.Stuck(tree.nodes)
    {
      broadphaseCollisions := [];
      visited := [];
      for i := 0 to |objects|
        invariant tree.Valid() && tree.Consistent()
        modifies tree`nodes, tree`owning
      {
        var o := objects[i];
        if o !in asleep {
          ok := tree.NotifyOwningNodes(o, pos(o), size(o));
          if !ok {
            return;
          }
        }
      }
      visited := tree.OperateOnContents();
      ok := true;
      ghost var nodes := tree.nodes;
      for k := 0 to |visited|
        invariant PairSet(broadphaseCollisions)
        modifies this`broadphaseCollisions
        invariant forall p :: p in broadphaseCollisions <==> FromLeaves(nodes, visited, k, asleep, p)
      {
        var l := LeafObjs(tree.nodes, visited[k]);
        broadphaseCollisions := AddLeafPairs(broadphaseCollisions, l, asleep);
        forall p ensures p in broadphaseCollisions <==> FromLeaves(nodes, visited, k + 1, asleep, p) {
          FromLeavesStep(nodes, visited, k, asleep, p);
        }
      }
    }

    /**
     * NarrowPhase: every broadphase pair that touches goes into the
     * collision set with a full countdown, unless the set already has it.
     */
    method NarrowPhase(detect: (ObjId, ObjId) -> Option<ContactPoint>)
      requires Valid()
      modifies this`allCollisions
      ensures Valid()
      ensures forall k :: Find(allCollisions, k) ==
                Detected(Find(old(allCollisions), k), k, k in broadphaseCollisions, detect, numCollisionFrames)
    {
      for i := 0 to |broadphaseCollisions|
        invariant UniqueKeys(allCollisions)
        invariant forall k :: Find(allCollisions, k) ==
                    Detected(Find(old(allCollisions), k), k, k in broadphaseCollisions[..i], detect, numCollisionFrames)
      {
        var p := broadphaseCollisions[i];
        assert broadphaseCollisions[..i + 1] == broadphaseCollisions[..i] + [p];
        var hit := detect(p.0, p.1);
        if hit.Some? {
          var info := CollisionInfo(p.0, p.1, hit.value, numCollisionFrames);
          InsertFind(allCollisions, info);
          allCollisions := SetInsert(allCollisions, info);
        }
      }
      assert broadphaseCollisions[..|broadphaseCollisions|] == broadphaseCollisions;
    }

    /**
     * BasicCollisionDetection: every pair of the world's objects with a
     * physics body, in world order, that touches goes into the collision
     * set with a full countdown, unless the set already has it.
     */
    method BasicCollisionDetection(objects: seq<ObjId>, hasPhysics: set<ObjId>, detect: (ObjId, ObjId) -> Option<ContactPoint>)
      requires Valid()
      modifies this`allCollisions
      ensures Valid()
      ensures forall k :: Find(allCollisions, k) ==
                Detected(Find(old(allCollisions), k), k,
                         exists i, j :: WorldPair(objects, hasPhysics, i, j) && k == (objects[i], objects[j]),
                         detect, numCollisionFrames)
    {
      ghost var start := allCollisions;
      for i := 0 to |objects|
        invariant UniqueKeys(allCollisions)
        invariant forall k :: Find(allCollisions, k) ==
                    Detected(Find(start, k), k, TestedBefore(objects, hasPhysics, i, 0, k), detect, numCollisionFrames)
      {
        if objects[i] in hasPhysics {
          DetectRow(objects, hasPhysics, detect, i, start);
        }
        forall k ensures Find(allCollisions, k) ==
                  Detected(Find(start, k), k, TestedBefore(objects, hasPhysics, i + 1, 0, k), detect, numCollisionFrames)
        {
          TestedRow(objects, hasPhysics, i, k);
        }
      }
      forall k ensures TestedBefore(objects, hasPhysics, |objects|, 0, k) <==>
                         exists i, j :: WorldPair(objects, hasPhysics, i, j) && k == (objects[i], objects[j])
      {
        if exists i, j :: WorldPair(objects, hasPhysics, i, j) && k == (objects[i], objects[j]) {
          var i, j :| WorldPair(objects, hasPhysics, i, j) && k == (objects[i], objects[j]);
          assert (i < |objects| || (i == |objects| && j < 0)) && WorldPair(objects, hasPhysics, i, j) && k == (objects[i], objects[j]);
        }
      }
    }

    /** Row i of BasicCollisionDetection: object i against every later object with a physics body. */
    method DetectRow(objects: seq<ObjId>, hasPhysics: set<ObjId>, detect: (ObjId, ObjId) -> Option<ContactPoint>,
                     i: int, ghost start: seq<CollisionInfo>)
      requires 0 <= i < |objects| && objects[i] in hasPhysics && UniqueKeys(allCollisions)
      requires forall k :: Find(allCollisions, k) ==
                 Detected(Find(start, k), k, TestedBefore(objects, hasPhysics, i, 0, k), detect, numCollisionFrames)
      modifies this`allCollisions
      ensures UniqueKeys(allCollisions)
      ensures forall k :: Find(allCollisions, k) ==
                Detected(Find(start, k), k, TestedBefore(objects, hasPhysics, i, |objects|, k), detect, numCollisionFrames)
    {
      forall k ensures Find(allCollisions, k) ==
                 Detected(Find(start, k), k, TestedBefore(objects, hasPhysics, i, i + 1, k), detect, numCollisionFrames)
      {
        TestedRow(objects, hasPhysics, i, k);
      }
      for j := i + 1 to |objects|
        invariant UniqueKeys(allCollisions)
        invariant forall k :: Find(allCollisions, k) ==
                    Detected(Find(start, k), k, TestedBefore(objects, hasPhysics, i, j, k), detect, numCollisionFrames)
      {
        if objects[j] in hasPhysics {
          var hit := detect(objects[i], objects[j]);
          if hit.Some? {
            var info := CollisionInfo(objects[i], objects[j], hit.value, numCollisionFrames);
            InsertFind(allCollisions, info);
            allCollisions := SetInsert(allCollisions, info);
          }
        }
        forall k ensures Find(allCollisions, k) ==
                   Detected(Find(start, k), k, TestedBefore(objects, hasPhysics, i, j + 1, k), detect, numCollisionFrames)
        {
          TestedStep(objects, hasPhysics, i, j, k);
        }
      }
    }

    /**
     * The collision detection of one substep: BroadPhase, then NarrowPhase
     * over its pairs (returned), or, without the broadphase,
     * BasicCollisionDetection. ok is false where the tree's bookkeeping
     * throws.
     */
    method DetectPass(objects: seq<ObjId>, hasPhysics: set<ObjId>, asleep: set<ObjId>, pos: ObjId -> Vec3, size: ObjId -> Vec3,
                      detect: (ObjId, ObjId) -> Option<ContactPoint>)
      returns (ok: bool, pairs: seq<Pair>)
      requires Valid()
      modifies this`allCollisions, this`broadphaseCollisions, tree`nodes, tree`owning
      ensures ok ==> Valid()
      ensures !ok ==> OctTreeHeld.Stuck(tree.nodes)
      ensures !useBroadPhase ==> ok && pairs == [] && unchanged(tree)
      ensures useBroadPhase && ok ==> pairs == broadphaseCollisions
      ensures ok ==>
                (forall k :: Find(allCollisions, k) ==
                   Detected(Find(old(allCollisions), k), k, PassTested(useBroadPhase, pairs, objects, hasPhysics, k), detect, numCollisionFrames))
    {
      if useBroadPhase {
        var visited;
        ok, visited := BroadPhase(objects, asleep, pos, size);
        if !ok {
          return false, [];
        }
        pairs := broadphaseCollisions;
        NarrowPhase(detect);
      } else {
        BasicCollisionDetection(objects, hasPhysics, detect);
        ok, pairs := true, [];
      }
    }

    /**
     * One pass of the substep loop over realDT: its collision detection, then
     * constraintIterationCount constraint updates. The set gains that pass's
     * contacts on top of what the earlier substeps left.
     */
    method OneSubstep(objects: seq<ObjId>, hasPhysics: set<ObjId>, asleep: set<ObjId>, pos: ObjId -> Vec3, size: ObjId -> Vec3,
                      detect: (ObjId, ObjId) -> Option<ContactPoint>, ghost start: seq<CollisionInfo>, ghost steps: seq<Substep>)
      returns (ok: bool, s: Substep)
      requires Valid() && DetectedBy(start, allCollisions, steps, objects, hasPhysics, detect, numCollisionFrames)
      modifies this`allCollisions, this`broadphaseCollisions, tree`nodes, tree`owning
      ensures ok ==> Valid() && DetectedBy(start, allCollisions, steps + [s], objects, hasPhysics, detect, numCollisionFrames)
      ensures !ok ==> OctTreeHeld.Stuck(tree.nodes)
      ensures s.dt == realDT && s.broad == useBroadPhase
      ensures |s.constraintDts| == (if constraintIterationCount < 0 then 0 else constraintIterationCount)
      ensures forall d :: d in s.constraintDts ==> constraintIterationCount != 0 && d == realDT / (constraintIterationCount as real)
    {
      ghost var before := allCollisions;
      var pairs;
      ok, pairs := DetectPass(objects, hasPhysics, asleep, pos, size, detect);
      var dts := ConstraintPasses(realDT, constraintIterationCount);
      s := Substep(realDT, useBroadPhase, dts, pairs);
      if ok {
        DetectedByStep(start, before, allCollisions, steps, s, objects, hasPhysics, detect, numCollisionFrames);
      }
    }

    /**
     * The substep loop of Update: while more than one step of time is owed,
     * one fixed step of realDT, each with its collision detection and
     * constraintIterationCount constraint updates, paid off the time owed.
     * The collision set ends up with every pair some substep tested that
     * touches, besides what it held. ok is false where the tree's
     * bookkeeping throws.
     */
    method Substeps(objects: seq<ObjId>, hasPhysics: set<ObjId>, asleep: set<ObjId>, pos: ObjId -> Vec3, size: ObjId -> Vec3,
                    detect: (ObjId, ObjId) -> Option<ContactPoint>)
      returns (ok: bool, steps: seq<Substep>)
      requires Valid()
      modifies this`dTOffset, this`allCollisions, this`broadphaseCollisions, tree`nodes, tree`owning
      ensures ok ==> Valid()
      ensures !ok ==> OctTreeHeld.Stuck(tree.nodes)
      ensures ok ==> dTOffset == old(dTOffset) - (|steps| as real) * realDT
      ensures ok ==> dTOffset <= realDT
      ensures ok && |steps| > 0 ==> dTOffset > 0.0
      ensures Uniform(steps, realDT, useBroadPhase, constraintIterationCount)
      ensures ok ==>
                (forall k :: Find(allCollisions, k) ==
                   Detected(Find(old(allCollisions), k), k, StepsTested(steps, objects, hasPhysics, k), detect, numCollisionFrames))
    {
      var step, owed := realDT, dTOffset;
      ghost var start := allCollisions;
      steps := [];
      ok := true;
      while owed > step
        invariant Valid() && step == realDT
        invariant owed == old(dTOffset) - (|steps| as real) * step
        invariant |steps| > 0 ==> owed > 0.0
        invariant Uniform(steps, realDT, useBroadPhase, constraintIterationCount)
        invariant DetectedBy(start, allCollisions, steps, objects, hasPhysics, detect, numCollisionFrames)
        decreases (owed / step).Floor
      {
        StepDown(owed, step);
        OneMore(|steps|, step);
        var s;
        ok, s := OneSubstep(objects, hasPhysics, asleep, pos, size, detect, start, steps);
        if !ok {
          return;
        }
        steps := steps + [s];
        owed := owed - step;
      }
      dTOffset := owed;
      assert DetectedBy(start, allCollisions, steps, objects, hasPhysics, detect, numCollisionFrames);
    }

    /** The rate rule at the end of Update, given how long the frame's physics took. */
    method AdaptRate(dt: real, updateTime: real)
      requires Valid()
      modifies this`realHZ, this`realDT
      ensures Valid()
      ensures realHZ == Adapt(old(realHZ), dt, updateTime) && realDT == RateDT(realHZ)
    {
      if updateTime > realDT {
        realHZ := realHZ / 2;
        if realHZ < 1 {
          realHZ := 1;
        }
      } else if dt * 2.0 < realDT {
        realHZ := realHZ * 2;
        if realHZ > IdealHZ {
          realHZ := IdealHZ;
        }
      }
      realDT := RateDT(realHZ);
    }

    /**
     * Update: adds the frame's dt to the time owed and runs the substeps with
     * their collision detection; then the end-of-frame pass over the
     * collision set, and the rate rule on how long the frame's physics took.
     * steps are the substeps, events the callbacks, detected the set as the
     * substeps left it. ok is false where the tree's bookkeeping throws.
     */
    method Update(dt: real, updateTime: real, objects: seq<ObjId>, hasPhysics: set<ObjId>, asleep: set<ObjId>,
                  pos: ObjId -> Vec3, size: ObjId -> Vec3, detect: (ObjId, ObjId) -> Option<ContactPoint>)
      returns (ok: bool, steps: seq<Substep>, events: seq<Event>, ghost detected: seq<CollisionInfo>)
      requires Valid()
      modifies this`dTOffset, this`allCollisions, this`broadphaseCollisions, this`realHZ, this`realDT, tree`nodes, tree`owning
      ensures ok ==> Valid()
      ensures !ok ==> OctTreeHeld.Stuck(tree.nodes)
      ensures ok ==> dTOffset == old(dTOffset) + dt - (|steps| as real) * old(realDT)
      ensures ok ==> dTOffset <= old(realDT)
      ensures ok && |steps| > 0 ==> dTOffset > 0.0
      ensures Uniform(steps, old(realDT), useBroadPhase, constraintIterationCount)
      // the substeps' contacts join the set, which the end-of-frame pass then ages
      ensures ok ==> UniqueKeys(detected)
      ensures ok ==>
                (forall k :: Find(detected, k) ==
                   Detected(Find(old(allCollisions), k), k, StepsTested(steps, objects, hasPhysics, k), detect, numCollisionFrames))
      ensures ok ==> allCollisions == Aged(detected) && events == AgeEvents(detected, numCollisionFrames)
      // a pair that starts touching this frame is announced to both of its objects
      ensures ok ==> forall k :: Find(old(allCollisions), k).None? && StepsTested(steps, objects, hasPhysics, k) && detect(k.0, k.1).Some? ==>
                Begin(k.0, k.1) in events && Begin(k.1, k.0) in events
      ensures ok ==> realHZ == Adapt(old(realHZ), dt, updateTime) && realDT == RateDT(realHZ)
    {
      dTOffset := dTOffset + dt;
      RateFloor(realHZ);
      ok, steps := Substeps(objects, hasPhysics, asleep, pos, size, detect);
      detected := allCollisions;
      if !ok {
        return ok, steps, [], detected;
      }
      ghost var owed := dTOffset;
      assert owed == old(dTOffset) + dt - (|steps| as real) * old(realDT);
      events := UpdateCollisionList();
      forall k | Find(old(allCollisions), k).None? && StepsTested(steps, objects, hasPhysics, k) && detect(k.0, k.1).Some?
        ensures Begin(k.0, k.1) in events && Begin(k.1, k.0) in events
      {
        NewContactBegins(detected, numCollisionFrames, k);
      }
      AdaptRate(dt, updateTime);
    }
  }
}
