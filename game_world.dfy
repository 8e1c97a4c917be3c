/**
 * GameWorld: the registry of the scene's objects, player goats and
 * constraints, with the world-ID and world-state counters, the shuffles
 * UpdateWorld applies, the raycast over every object, and the maze it
 * routes goats through.
 *
 * RayIntersection, the ray-against-object test, is the parameter hit: what
 * it reports for an object along the caster's ray, if anything.
 */
module Worlds {
  import opened Common
  import opened Contacts
  import Objects
  import Physics
  import OctTreeShape
  import OctTreeSteps
  import OctTreeHeld
  import Navigation

  /** A constraint, by handle. */
  type ConstraintId = nat

  /** What RayIntersection reports for an object the ray meets: the point and the distance along the ray. */
  datatype RayHit = RayHit(collidedAt: Vec3, rayDistance: real)

  /** A ray's collision: the object hit (null for none), the point and the distance. */
  datatype RayCollision = RayCollision(node: Objects.GameObject?, collidedAt: Vec3, rayDistance: real)

  /** FLT_MAX, the largest finite float. */
  const FloatMax: real := 340282346638528859811704183484516925440.0

  /** A default RayCollision: no object, at the origin, FLT_MAX away. */
  const NoCollision: RayCollision := RayCollision(null, Zero, FloatMax)

  /** The ray meets o, and Raycast considers o: it has a volume and is not the object to ignore. */
  predicate Struck(o: Objects.GameObject, ignore: Objects.GameObject?, hit: Objects.GameObject -> Option<RayHit>)
    reads o
  {
    o.boundingVolume.Some? && o != ignore && hit(o).Some?
  }

  /** The collision Raycast records for an object it hits. */
  function Report(o: Objects.GameObject, h: RayHit): RayCollision
  {
    RayCollision(o, h.collidedAt, h.rayDistance)
  }

  /**
   * The closest-object raycast: the nearest object the ray meets, the
   * first of those at that distance, or none; an object only replaces the
   * best so far when strictly nearer, so nothing at FLT_MAX or beyond is
   * ever reported.
   */
  function Closest(objs: seq<Objects.GameObject>, ignore: Objects.GameObject?, hit: Objects.GameObject -> Option<RayHit>): (c: RayCollision)
    reads objs
    ensures c.node == null ==> c == NoCollision
    ensures c.node != null ==> c.node in objs && Struck(c.node, ignore, hit) && hit(c.node) == Some(RayHit(c.collidedAt, c.rayDistance))
    ensures c.rayDistance <= FloatMax
    ensures forall i :: 0 <= i < |objs| && Struck(objs[i], ignore, hit) ==> c.rayDistance <= hit(objs[i]).value.rayDistance
    ensures (exists i :: 0 <= i < |objs| && Struck(objs[i], ignore, hit) && hit(objs[i]).value.rayDistance < FloatMax) ==> c.node != null
    ensures c.node != null ==> exists i :: 0 <= i < |objs| && objs[i] == c.node
                                   && forall j :: 0 <= j < i && Struck(objs[j], ignore, hit) ==> hit(objs[j]).value.rayDistance > c.rayDistance
  {
    if objs == [] then NoCollision
    else
      var c := Closest(objs[..|objs| - 1], ignore, hit);
      var o := objs[|objs| - 1];
      assert forall i :: 0 <= i < |objs| - 1 ==> objs[i] == objs[..|objs| - 1][i];
      if Struck(o, ignore, hit) && hit(o).value.rayDistance < c.rayDistance then Report(o, hit(o).value) else c
  }

  /** The first-hit raycast as intended: the first object in list order the ray meets, with its own hit, or none. */
  function FirstHit(objs: seq<Objects.GameObject>, ignore: Objects.GameObject?, hit: Objects.GameObject -> Option<RayHit>): (c: RayCollision)
    reads objs
    ensures c.node == null <==> forall i :: 0 <= i < |objs| ==> !Struck(objs[i], ignore, hit)
    ensures c.node == null ==> c == NoCollision
    ensures c.node != null ==> exists i :: 0 <= i < |objs| && objs[i] == c.node && Struck(objs[i], ignore, hit)
                                            && c == Report(objs[i], hit(objs[i]).value)
                                            && forall j :: 0 <= j < i ==> !Struck(objs[j], ignore, hit)
  {
    if objs == [] then NoCollision
    else
      var c := FirstHit(objs[..|objs| - 1], ignore, hit);
      var o := objs[|objs| - 1];
      assert forall i :: 0 <= i < |objs| - 1 ==> objs[i] == objs[..|objs| - 1][i];
      if c.node != null then c
      else if Struck(o, ignore, hit) then Report(o, hit(o).value)
      else NoCollision
  }

  /**
   * The first-hit raycast as written: it reports the first object the ray
   * meets, but copies the point and distance from the still-empty running
   * collision rather than from that object's hit.
   */
  function FirstHitAsWritten(objs: seq<Objects.GameObject>, ignore: Objects.GameObject?, hit: Objects.GameObject -> Option<RayHit>): (c: RayCollision)
    reads objs
    ensures c.node == null <==> forall i :: 0 <= i < |objs| ==> !Struck(objs[i], ignore, hit)
    ensures c.collidedAt == Zero && c.rayDistance == FloatMax
  {
    if objs == [] then NoCollision
    else
      var c := FirstHitAsWritten(objs[..|objs| - 1], ignore, hit);
      var o := objs[|objs| - 1];
      assert forall i :: 0 <= i < |objs| - 1 ==> objs[i] == objs[..|objs| - 1][i];
      if c.node != null then c
      else if Struck(o, ignore, hit) then NoCollision.(node := o)
      else NoCollision
  }

  /**
   * Both first-hit versions name the same object, but whenever the ray meets
   * it anywhere nearer than FLT_MAX the version as written reports the wrong
   * distance.
   */
  lemma {:induction false} FirstHitLosesDistance(objs: seq<Objects.GameObject>, ignore: Objects.GameObject?, hit: Objects.GameObject -> Option<RayHit>)
    ensures FirstHitAsWritten(objs, ignore, hit).node == FirstHit(objs, ignore, hit).node
    ensures FirstHit(objs, ignore, hit).node != null && FirstHit(objs, ignore, hit).rayDistance < FloatMax ==>
              FirstHitAsWritten(objs, ignore, hit).rayDistance != FirstHit(objs, ignore, hit).rayDistance
  {
    if objs != [] {
      FirstHitLosesDistance(objs[..|objs| - 1], ignore, hit);
    }
  }

  class GameWorld {
    var gameObjects: seq<Objects.GameObject>
    var playerGoats: seq<Objects.GameObject>
    var constraints: seq<ConstraintId>

    var physicsSystem: Physics.PhysicsSystem?
    var maze: Navigation.NavigationGrid?

    var shuffleConstraints: bool
    var shuffleObjects: bool
    var worldIDCounter: int
    var worldStateCounter: int

    /** An empty world: no shuffles, both counters at 0, no physics system or maze attached yet. */
    constructor ()
      ensures gameObjects == [] && playerGoats == [] && constraints == []
      ensures physicsSystem == null && maze == null
      ensures !shuffleConstraints && !shuffleObjects && worldIDCounter == 0 && worldStateCounter == 0
    {
      gameObjects := [];
      playerGoats := [];
      constraints := [];
      physicsSystem := null;
      maze := null;
      shuffleConstraints := false;
      shuffleObjects := false;
      worldIDCounter := 0;
      worldStateCounter := 0;
    }

    /** Forgets every object, goat and constraint and the maze, and restarts both counters. */
    method Clear()
      modifies this
      ensures gameObjects == [] && playerGoats == [] && constraints == [] && maze == null
      ensures worldIDCounter == 0 && worldStateCounter == 0
      ensures physicsSystem == old(physicsSystem)
      ensures shuffleConstraints == old(shuffleConstraints) && shuffleObjects == old(shuffleObjects)
    {
      gameObjects := [];
      playerGoats := [];
      constraints := [];
      maze := null;
      worldIDCounter := 0;
      worldStateCounter := 0;
    }

    method SetPhysicsSystem(physics: Physics.PhysicsSystem?)
      modifies this`physicsSystem
      ensures physicsSystem == physics
    {
      physicsSystem := physics;
    }

    /**
     * A physics system built for this world: its constructor registers it
     * here through SetPhysicsSystem, so the world ends up pointing at a new
     * system in its initial state.
     */
    method NewPhysicsSystem(numCollisionFrames: int) returns (p: Physics.PhysicsSystem)
      modifies this`physicsSystem
      ensures fresh(p) && fresh(p.tree) && p.Valid() && physicsSystem == p
      ensures p.tree.nodes == [OctTreeShape.Node(1, Zero, Physics.WorldSize, true, [], None, [])] && p.tree.owning == map[]
      ensures p.allCollisions == [] && p.broadphaseCollisions == [] && p.numCollisionFrames == numCollisionFrames
      ensures p.applyGravity && p.useBroadPhase && p.dTOffset == 0.0 && p.gravity == Vec3(0.0, -9.8, 0.0)
    {
      p := new Physics.PhysicsSystem(numCollisionFrames);
      SetPhysicsSystem(p);
    }

    /**
     * Registers an object: appended to the list, given the next world ID,
     * both counters advanced, and handed to the physics system. ok is false
     * where the physics system's tree bookkeeping throws.
     */
    method AddGameObject(o: Objects.GameObject) returns (ok: bool)
      requires physicsSystem != null && physicsSystem.Valid()
      requires o.boundingVolume.Some? ==> o.physicsObject.Some?
      modifies this`gameObjects, this`worldIDCounter, this`worldStateCounter
      modifies o`worldID, o`broadphaseAABB, physicsSystem.tree`nodes, physicsSystem.tree`owning
      ensures gameObjects == old(gameObjects) + [o]
      ensures o.worldID == old(worldIDCounter)
      ensures worldIDCounter == old(worldIDCounter) + 1 && worldStateCounter == old(worldStateCounter) + 1
      ensures ok ==> physicsSystem.Valid()
      ensures o.boundingVolume.None? ==> ok && unchanged(physicsSystem.tree)
      // an object with a volume is held wherever the descent from the root takes its entry; nothing held before is lost
      ensures o.boundingVolume.Some? && ok ==>
                OctTreeHeld.Refined(old(physicsSystem.tree.nodes), physicsSystem.tree.nodes, physicsSystem.tree.maxDepth)
                && OctTreeHeld.Reaches(physicsSystem.tree.nodes, physicsSystem.tree.maxDepth, 0,
                     OctTreeShape.Entry(o.address, o.position, o.broadphaseAABB, o.physicsObject.value.sleep))
      ensures !ok ==> OctTreeHeld.Stuck(physicsSystem.tree.nodes)
    {
      gameObjects := gameObjects + [o];
      o.SetWorldID(worldIDCounter);
      worldIDCounter := worldIDCounter + 1;
      worldStateCounter := worldStateCounter + 1;
      ok := physicsSystem.AddObject(o);
    }

    /**
     * Unregisters an object: every occurrence leaves the list, the rest in
     * order, the physics system forgets its collisions, and the state counter
     * advances. Deleting the object runs its destructor, whose
     * RemoveFromTree takes its entries out of every node of the tree; the
     * freeing itself is memory management.
     */
    method RemoveGameObject(o: Objects.GameObject, andDelete: bool)
      requires physicsSystem != null && physicsSystem.Valid()
      modifies this`gameObjects, this`worldStateCounter, physicsSystem`allCollisions
      modifies physicsSystem.tree`nodes, physicsSystem.tree`owning
      ensures gameObjects == RemoveAll(old(gameObjects), o)
      ensures physicsSystem.Valid() && physicsSystem.allCollisions == Without(old(physicsSystem.allCollisions), o.address)
      ensures worldStateCounter == old(worldStateCounter) + 1
      // a deleted object's entries leave each of its owning nodes, and no node holds it any more
      ensures andDelete ==>
                physicsSystem.tree.nodes == OctTreeSteps.DeleteAll(old(physicsSystem.tree.nodes),
                                                                   OctTreeShape.Own(old(physicsSystem.tree.owning), o.address), o.address)
                && OctTreeShape.Own(physicsSystem.tree.owning, o.address) == []
                && forall m :: 0 <= m < |physicsSystem.tree.nodes| ==> o.address !in OctTreeShape.Objs(physicsSystem.tree.nodes[m].contents)
      ensures !andDelete ==> unchanged(physicsSystem.tree)
    {
      gameObjects := RemoveAll(gameObjects, o);
      physicsSystem.RemoveObject(o.address);
      if andDelete {
        physicsSystem.tree.RemoveFromTree(o.address);
      }
      worldStateCounter := worldStateCounter + 1;
    }

    /** A goat is registered as a goat and as an object. */
    method AddGoat(o: Objects.GameObject) returns (ok: bool)
      requires physicsSystem != null && physicsSystem.Valid()
      requires o.boundingVolume.Some? ==> o.physicsObject.Some?
      modifies this`playerGoats, this`gameObjects, this`worldIDCounter, this`worldStateCounter
      modifies o`worldID, o`broadphaseAABB, physicsSystem.tree`nodes, physicsSystem.tree`owning
      ensures playerGoats == old(playerGoats) + [o] && gameObjects == old(gameObjects) + [o]
      ensures o.worldID == old(worldIDCounter)
      ensures worldIDCounter == old(worldIDCounter) + 1 && worldStateCounter == old(worldStateCounter) + 1
      ensures ok ==> physicsSystem.Valid()
      ensures o.boundingVolume.Some? && ok ==>
                OctTreeHeld.Refined(old(physicsSystem.tree.nodes), physicsSystem.tree.nodes, physicsSystem.tree.maxDepth)
                && OctTreeHeld.Reaches(physicsSystem.tree.nodes, physicsSystem.tree.maxDepth, 0,
                     OctTreeShape.Entry(o.address, o.position, o.broadphaseAABB, o.physicsObject.value.sleep))
      ensures !ok ==> OctTreeHeld.Stuck(physicsSystem.tree.nodes)
    {
      playerGoats := playerGoats + [o];
      ok := AddGameObject(o);
    }

    /** A goat leaves both the goats and the objects. */
    method RemoveGoat(o: Objects.GameObject, andDelete: bool)
      requires physicsSystem != null && physicsSystem.Valid()
      modifies this`playerGoats, this`gameObjects, this`worldStateCounter, physicsSystem`allCollisions
      modifies physicsSystem.tree`nodes, physicsSystem.tree`owning
      ensures playerGoats == RemoveAll(old(playerGoats), o) && gameObjects == RemoveAll(old(gameObjects), o)
      ensures physicsSystem.Valid() && physicsSystem.allCollisions == Without(old(physicsSystem.allCollisions), o.address)
      ensures worldStateCounter == old(worldStateCounter) + 1
      ensures andDelete ==>
                physicsSystem.tree.nodes == OctTreeSteps.DeleteAll(old(physicsSystem.tree.nodes),
                                                                   OctTreeShape.Own(old(physicsSystem.tree.owning), o.address), o.address)
                && OctTreeShape.Own(physicsSystem.tree.owning, o.address) == []
                && forall m :: 0 <= m < |physicsSystem.tree.nodes| ==> o.address !in OctTreeShape.Objs(physicsSystem.tree.nodes[m].contents)
      ensures !andDelete ==> unchanged(physicsSystem.tree)
    {
      playerGoats := RemoveAll(playerGoats, o);
      RemoveGameObject(o, andDelete);
    }

    method AddConstraint(c: ConstraintId)
      modifies this`constraints
      ensures constraints == old(constraints) + [c]
    {
      constraints := constraints + [c];
    }

    /** Every occurrence of c leaves the constraints, the rest in order. */
    method RemoveConstraint(c: ConstraintId, andDelete: bool)
      modifies this`constraints
      ensures constraints == RemoveAll(old(constraints), c)
    {
      constraints := RemoveAll(constraints, c);
    }

    method ShuffleConstraints(state: bool)
      modifies this`shuffleConstraints
      ensures shuffleConstraints == state
    {
      shuffleConstraints := state;
    }

    method ShuffleObjects(state: bool)
      modifies this`shuffleObjects
      ensures shuffleObjects == state
    {
      shuffleObjects := state;
    }

    function GetWorldStateID(): int reads this`worldStateCounter { worldStateCounter }

    function GetGoats(): seq<Objects.GameObject> reads this`playerGoats { playerGoats }

    function GetMaze(): Navigation.NavigationGrid? reads this`maze { maze }

    method AddMaze(m: Navigation.NavigationGrid?)
      modifies this`maze
      ensures GetMaze() == m
    {
      maze := m;
    }

    /**
     * Reorders the objects, then the constraints, each only when its shuffle
     * is on; the order is arbitrary (the engine draws it from the clock).
     */
    method UpdateWorld(dt: real)
      modifies this`gameObjects, this`constraints
      ensures shuffleObjects ==> multiset(gameObjects) == multiset(old(gameObjects))
      ensures !shuffleObjects ==> gameObjects == old(gameObjects)
      ensures shuffleConstraints ==> multiset(constraints) == multiset(old(constraints))
      ensures !shuffleConstraints ==> constraints == old(constraints)
    {
      if shuffleObjects {
        var objects: seq<Objects.GameObject> :| multiset(objects) == multiset(gameObjects);
        gameObjects := objects;
      }
      if shuffleConstraints {
        var shuffled: seq<ConstraintId> :| multiset(shuffled) == multiset(constraints);
        constraints := shuffled;
      }
    }

    /**
     * Casts a ray over every object, skipping those without a volume and the
     * one to ignore. In closest mode it reports the nearest object the ray
     * meets; otherwise the first one in list order, with that object's own
     * hit. false, with closestCollision as it was, when nothing is reported.
     */
    method Raycast(hit: Objects.GameObject -> Option<RayHit>, closestCollision: RayCollision, closestObject: bool, ignoreThis: Objects.GameObject?)
      returns (found: bool, out: RayCollision)
      ensures var c := if closestObject then Closest(gameObjects, ignoreThis, hit) else FirstHit(gameObjects, ignoreThis, hit);
              (found <==> c.node != null) && out == (if found then c else closestCollision)
    {
      var collision := NoCollision;
      for i := 0 to |gameObjects|
        invariant closestObject ==> collision == Closest(gameObjects[..i], ignoreThis, hit)
        invariant !closestObject ==> collision == NoCollision && FirstHit(gameObjects[..i], ignoreThis, hit) == NoCollision
      {
        var o := gameObjects[i];
        assert gameObjects[..i + 1][..i] == gameObjects[..i] && gameObjects[..i + 1][i] == o;
        if o.boundingVolume.None? {
          continue;
        }
        if o == ignoreThis {
          continue;
        }
        var thisCollision := hit(o);
        if thisCollision.Some? {
          if !closestObject {
            out := Report(o, thisCollision.value);
            FirstHitFrom(gameObjects, i, ignoreThis, hit);
            return true, out;
          } else if thisCollision.value.rayDistance < collision.rayDistance {
            collision := Report(o, thisCollision.value);
          }
        }
      }
      assert gameObjects[..|gameObjects|] == gameObjects;
      if collision.node != null {
        return true, collision;
      }
      return false, closestCollision;
    }

    /** The goats in the maze: for now every goat, in order. */
    method GetGoatsInMaze() returns (goatsInMaze: seq<Objects.GameObject>)
      ensures goatsInMaze == playerGoats
    {
      goatsInMaze := [];
      for i := 0 to |playerGoats|
        invariant goatsInMaze == playerGoats[..i]
      {
        goatsInMaze := goatsInMaze + [playerGoats[i]];
      }
      assert playerGoats[..|playerGoats|] == playerGoats;
    }

    /** Opens the maze cell under a node's position and drops the node from the world. */
    method RemoveMazeNode(node: Objects.GameObject)
      requires maze != null && maze.Valid() && maze.nodeSize != 0
      requires physicsSystem != null && physicsSystem.Valid()
      modifies maze`allNodes, this`gameObjects, this`worldStateCounter, physicsSystem`allCollisions
      modifies physicsSystem.tree`nodes, physicsSystem.tree`owning
      ensures maze.Valid()
      ensures var c := maze.CellAt(Sub(node.position, maze.zeroPos));
        if !Navigation.InGrid(maze.gridWidth, maze.gridHeight, c.0, c.1) then maze.allNodes == old(maze.allNodes)
        else
          var k := Navigation.Idx(maze.gridWidth, c.0, c.1);
          0 <= k < |old(maze.allNodes)| &&
          maze.allNodes == Navigation.Connect(old(maze.allNodes)[k := old(maze.allNodes)[k].(cellType := Navigation.FloorNode)],
                                              maze.gridWidth, maze.gridHeight)
      ensures gameObjects == RemoveAll(old(gameObjects), node)
      ensures physicsSystem.Valid() && physicsSystem.allCollisions == Without(old(physicsSystem.allCollisions), node.address)
      ensures worldStateCounter == old(worldStateCounter) + 1
      // the node is always deleted: its entries leave the tree
      ensures OctTreeShape.Own(physicsSystem.tree.owning, node.address) == []
              && forall m :: 0 <= m < |physicsSystem.tree.nodes| ==> node.address !in OctTreeShape.Objs(physicsSystem.tree.nodes[m].contents)
    {
      maze.RemoveNode(node.position);
      RemoveGameObject(node, true);
    }

    /**
     * The maze route between two positions, start first: FindPath pushes the
     * route end first, and popping the waypoints back off reverses it. No
     * route gives no positions.
     */
    method CalculatePathInMaze(startPos: Vec3, endPos: Vec3, dist: (Vec3, Vec3) -> real)
      returns (nodes: seq<Vec3>, ghost found: bool, ghost route: seq<int>)
      requires maze != null && maze.Valid() && maze.nodeSize != 0
      modifies maze`allNodes
      ensures maze.Valid() && Navigation.SameGrid(maze.allNodes, old(maze.allNodes))
      ensures found <==> maze.OnGrid(startPos) && maze.OnGrid(endPos) &&
                         Navigation.Reachable(Navigation.Graph(maze.allNodes), maze.CellIndex(endPos), maze.CellIndex(startPos))
      ensures found ==> Navigation.Route(Navigation.Graph(maze.allNodes), route, maze.CellIndex(endPos), maze.CellIndex(startPos))
                        && nodes == Reversed(Navigation.Positions(maze.allNodes, route))
      ensures !found ==> nodes == []
    {
      var outPath := new Navigation.NavigationPath();
      found, route := maze.FindPath(startPos, endPos, outPath, dist);
      ghost var pushed := outPath.waypoints;
      assert found ==> pushed == Navigation.Positions(maze.allNodes, route);
      assert !found ==> pushed == [];
      nodes := PopAll(outPath);
      assert nodes == Reversed(pushed);
    }
  }

  /** Pops every waypoint off a path, last pushed first, into a list. */
  method PopAll(outPath: Navigation.NavigationPath) returns (nodes: seq<Vec3>)
    modifies outPath`waypoints
    ensures nodes == Reversed(old(outPath.waypoints)) && outPath.waypoints == []
  {
    ghost var pushed := outPath.waypoints;
    nodes := [];
    var pos := Zero;
    var more;
    more, pos := outPath.PopWaypoint(pos);
    if more {
      ReversedSnoc(outPath.waypoints, pos);
    }
    while more
      invariant Reversed(pushed) == nodes + (if more then [pos] else []) + Reversed(outPath.waypoints)
      invariant !more ==> outPath.waypoints == []
      decreases |outPath.waypoints| + (if more then 1 else 0)
    {
      nodes := nodes + [pos];
      more, pos := outPath.PopWaypoint(pos);
      if more {
        ReversedSnoc(outPath.waypoints, pos);
      }
    }
  }

  /** The first object struck is the first one after a prefix that strikes nothing. */
  lemma {:induction false} FirstHitFrom(objs: seq<Objects.GameObject>, i: int, ignore: Objects.GameObject?, hit: Objects.GameObject -> Option<RayHit>)
    requires 0 <= i < |objs| && FirstHit(objs[..i], ignore, hit) == NoCollision && Struck(objs[i], ignore, hit)
    ensures FirstHit(objs, ignore, hit) == Report(objs[i], hit(objs[i]).value)
    decreases |objs|
  {
    if |objs| > i + 1 {
      var p := objs[..|objs| - 1];
      assert p[..i] == objs[..i];
      FirstHitFrom(p, i, ignore, hit);
    } else {
      assert objs[..|objs| - 1] == objs[..i];
    }
  }

  /** Reversing a list grown at the back puts the new element first. */
  lemma ReversedSnoc<T>(s: seq<T>, x: T)
    ensures Reversed(s + [x]) == [x] + Reversed(s)
  {
    var r := Reversed(s + [x]);
    assert forall i :: 0 <= i < |r| ==> r[i] == ([x] + Reversed(s))[i];
  }

  /**
   * A route FindPath pushes, reversed into the order CalculatePathInMaze
   * returns it, starts at the start cell, ends at the end cell, and each
   * cell is linked to from the one before it.
   */
  lemma RouteForward(graph: seq<seq<Option<int>>>, route: seq<int>, a: int, b: int)
    requires Navigation.Route(graph, route, a, b)
    ensures var f := Reversed(route);
      |f| > 0 && f[0] == b && f[|f| - 1] == a &&
      (forall i :: 0 <= i < |f| ==> 0 <= f[i] < |graph|) &&
      (forall i :: 0 <= i < |f| - 1 ==> Some(f[i + 1]) in graph[f[i]])
  {
    var f := Reversed(route);
    forall i | 0 <= i < |f| - 1
      ensures Some(f[i + 1]) in graph[f[i]]
    {
      var j := |route| - 2 - i;
      assert f[i] == route[j + 1] && f[i + 1] == route[j];
    }
  }
}
