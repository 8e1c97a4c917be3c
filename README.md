# CSC8503 game engine core, modelled in Dafny

A model of the physics and game core of the CSC8503 "Goat Imitator" engine, with the properties its code promises proved about the model:

- **Spatial index.** The broadphase octree keeps its nodes in one arena addressed by index. Each object keeps a list of the nodes that hold it (`owningNodes`), and the model proves that this list stays in agreement with the nodes' contents. The quadtree variant is modelled too.
- **Collision bookkeeping.** `PhysicsSystem` keeps a set of contacts across frames, with a frame countdown and begin/end callbacks. The model covers that set, the broadphase's canonical pairs, the narrow phase and the brute-force detection, the fixed-step loop with its adaptive step rate, and the positional part of impulse resolution.
- **Bodies and objects.** `PhysicsObject` accumulates forces, applies impulses and runs the awake/asleep state machine. `GameObject` holds the components and the cached broadphase box.
- **The world.** `GameWorld` is the registry of objects, goats and constraints with its ID counters. It also runs the raycast and routes through the maze.
- **The maze.** `NavigationGrid` lays out the grid, links neighbouring cells and runs the A* search.
- **Small components.** The parallel behaviour node, the set-backed observer and the goat's civilian score.
- **The console menu.** It validates and parses the server's dotted-quad address and skips frames longer than a second.

Pointers become handles. `ObjId` is a `GameObject*` and `NodeId` an index into the octree's arena. Classes the source updates in place are Dafny classes with `modifies` clauses. Vector arithmetic is over `real`.

## Model

| member | source | states |
|---|---|---|
| OctTrees.OctTree.constructor | CSC8503CoreClasses/OctTree.h:18-21 | one leaf root at the origin with the given half-size, depth 1, no parent, asleep; no owning lists; maxDepth and maxSize recorded |
| OctTrees.OctTree.GetNodeCount | CSC8503CoreClasses/GameObject.h:109-111 | the owning list's length equals the number of o's entries in the whole tree whenever tree and lists agree |
| OctTrees.OctTree.AddOwningNode | CSC8503CoreClasses/GameObject.cpp:57-60 | the node is appended to o's list, duplicates allowed |
| OctTrees.OctTree.RemoveOwningNode | CSC8503CoreClasses/GameObject.cpp:62-67 | every occurrence of the node leaves o's list; ok (no throw) exactly when there was one |
| OctTrees.OctTree.NodeDelete | CSC8503CoreClasses/OctTreeNode.h:30-39 | only the first entry of o in the node is erased, nothing else in the arena changes |
| OctTrees.OctTree.NodeSplit | CSC8503CoreClasses/OctTreeNode.h:120-135 | eight children appended, each half the size, centred in its octant, one level down, parent = the node |
| OctTrees.OctTree.NodeInsert | CSC8503CoreClasses/OctTreeNode.h:89-118 | no-op when the box misses the node; a leaf with room appends the entry, is named in the object's list and takes sleep && slept; on success the entry is held by every overlapping leaf the descent from the node meets, everything held before stays held, and lists and contents still agree; a failure only ever leaves a node holding an object twice |
| OctTrees.OctTree.InsertIntoChildren | CSC8503CoreClasses/OctTreeNode.h:93-95 | on success the entry is held by the overlapping leaves below all eight children, nothing held before is lost, agreement below the node is kept; a failure leaves a node holding an object twice |
| OctTrees.OctTree.NodeReinsert | CSC8503CoreClasses/OctTreeNode.h:105-112 | one pass of the split loop: the node leaves the object's list and the entry is held below all eight children, nothing else lost; it fails only where the node was missing from the list (the throw) or a node holds an object twice |
| OctTrees.OctTree.NodeRedistribute | CSC8503CoreClasses/OctTreeNode.h:101-116 | after the split the leaf holds nothing, is asleep and has eight children, and every entry it held is held below them; agreement holds; success means the leaf held each object once, and a failure means some node holds an object twice |
| OctTrees.OctTree.RedistributeEntry | CSC8503CoreClasses/OctTreeNode.h:105-112 | one entry of the split loop is held below the children and the earlier ones still are; a failure leaves a node holding an object twice |
| OctTrees.OctTree.FindContaining | CSC8503CoreClasses/OctTreeNode.h:54-62 | the walk up the parent links ends at the nearest node that fully contains the box, or none |
| OctTrees.OctTree.NodeRelocate | CSC8503CoreClasses/OctTreeNode.h:49-71 | o's first entry is erased and o re-inserted awake at that nearest containing node, where on success its entry is held by every overlapping leaf below, nothing else lost; with none, o is in no node; a failure leaves a node holding an object twice |
| OctTrees.OctTree.EraseEntry | CSC8503CoreClasses/OctTreeNode.h:49-52 | the first entry of o leaves the node, which is then agreed with o's list, and the walk up from it is unchanged |
| OctTrees.FindEntry | CSC8503CoreClasses/OctTreeNode.h:49-51 | the index of o's first entry, or the length when o has none |
| OctTrees.OctTree.NodeUpdate | CSC8503CoreClasses/OctTreeNode.h:41-73 | a box still fully inside only re-names the node; otherwise relocation, after which o's entry is held below the nearest containing node; no entry of o: nothing happens; agreement is restored; a failure leaves a node holding an object twice |
| OctTrees.OctTree.NotifyOwningNodes | CSC8503CoreClasses/GameObject.cpp:69-80 | an empty list changes nothing; otherwise every node but the front deletes o, the list is emptied, and the front node updates o; agreement is kept; a failure leaves a node holding an object twice |
| OctTrees.OctTree.DetachAllButFirst | CSC8503CoreClasses/GameObject.cpp:72-78 | every owning node but the front deletes o, last first; the list is emptied and the front node, returned, is the one holding the unnamed entry |
| OctTrees.OctTree.RemoveFromTree | CSC8503CoreClasses/GameObject.cpp:82-87 | o is deleted from each owning node, last first, and the list emptied; with agreement, no node holds o afterwards |
| OctTrees.OctTree.PopUntil | CSC8503CoreClasses/GameObject.cpp:83-86 | the back node deletes o and is popped until keep nodes are left; agreement is kept |
| OctTrees.OctTree.PopLast | CSC8503CoreClasses/GameObject.cpp:84-85 | one round: the back node deletes o and is popped; agreement is kept |
| OctTrees.OctTree.Insert | CSC8503CoreClasses/OctTree.h:26-28 | root insertion; nothing changes for a box outside the root; on success the entry is held by every overlapping leaf the descent meets and nothing held before is lost, agreement kept; a failure leaves a node holding an object twice |
| OctTrees.OctTree.NodeOperateOnContents | CSC8503CoreClasses/OctTreeNode.h:176-183 | the nodes handed to func, in call order, equal the recursive walk with the flag dropped in the children |
| OctTrees.OctTree.OperateOnContents | CSC8503CoreClasses/OctTree.h:30-32 | func receives every non-empty leaf exactly once, asleep or not |
| OctTrees.OctTree.NodeClear | CSC8503CoreClasses/OctTreeNode.h:185-194 | every non-empty leaf of the subtree is emptied and asleep; no other node changes, shape kept |
| OctTrees.OctTree.Clear | CSC8503CoreClasses/OctTree.h:38-40 | every leaf is empty, every node keeps its region, depth and links |
| OctTreeShape.SplitNodes | CSC8503CoreClasses/OctTreeNode.h:120-135 | the split arena: eight new children after the old nodes, the parent's children set, all else unchanged |
| OctTreeShape.ChildWithinParent | CSC8503CoreClasses/OctTreeNode.h:122-130 | each child's region lies fully within its parent's |
| OctTreeShape.FirstContaining | CSC8503CoreClasses/OctTreeNode.h:56-62 | the node found fully contains the box and is no deeper; none only when even the root does not |
| OctTreeShape.RemoveFirstCount | CSC8503CoreClasses/OctTreeNode.h:30-39 | Delete removes one entry of o when there is one, and no entry of another object |
| OctTreeShape.RemoveFirstAt | CSC8503CoreClasses/OctTreeNode.h:31-36 | erasing at the first position holding o is Delete |
| OctTreeSteps.Erased | CSC8503CoreClasses/OctTreeNode.h:30-39 | Delete on one node changes only that node's contents |
| OctTreeSteps.DeleteAllShape | CSC8503CoreClasses/GameObject.cpp:82-87 | deleting along the owning list changes no node's region or links |
| OctTreeSteps.RedistributingEnd | CSC8503CoreClasses/OctTreeNode.h:113-114 | after the loop and the clear, agreement holds from the split node down and the former contents held each object once |
| OctTreeSteps.PoppedAll | CSC8503CoreClasses/GameObject.cpp:83-86 | RemoveFromTree's loop deletes o from every listed node and empties the list |
| OctTreeSteps.PoppedAllButFirst | CSC8503CoreClasses/GameObject.cpp:72-78 | NotifyOwningNodes' loop leaves only the front node, whose entry is then the one unnamed |
| OctTreeHeld.ReachesKept | CSC8503CoreClasses/OctTreeNode.h:89-118 | an entry held below a node is still held there after any insertion or split |
| OctTreeHeld.RefinedPush | CSC8503CoreClasses/OctTreeNode.h:97-100 | a leaf appending an entry loses nothing, and the entry is held there |
| OctTreeHeld.RefinedSplit | CSC8503CoreClasses/OctTreeNode.h:102-111 | a split loses nothing once every entry of the old leaf is held below its children |
| OctTreeHeld.RefinedRedistributed | CSC8503CoreClasses/OctTreeNode.h:113-114 | clearing the split leaf after the loop loses nothing |
| OctTreeHeld.RedistributingStuck | CSC8503CoreClasses/GameObject.cpp:62-67 | the split loop's RemoveOwningNode throws only when the leaf held that object twice |
| OctTreeWalk.VisitsSound | CSC8503CoreClasses/OctTreeNode.h:176-183 | only non-empty leaves of the subtree are handed to func |
| OctTreeWalk.VisitsComplete | CSC8503CoreClasses/OctTreeNode.h:176-183 | with the flag off, every non-empty leaf of the subtree is handed to func |
| OctTreeWalk.VisitsNoDup | CSC8503CoreClasses/OctTreeNode.h:176-183 | no leaf is handed to func twice |
| OctTreeWalk.VisitsAll | CSC8503CoreClasses/OctTree.h:30-32 | from the root, func receives exactly the non-empty leaves, each once |
| OctTreeWalk.Wiped | CSC8503CoreClasses/OctTreeNode.h:185-194 | Clear on one node empties and sleeps a non-empty leaf and keeps region, depth and links |
| OctTreeWalk.ClearedAll | CSC8503CoreClasses/OctTree.h:38-40 | a cleared tree is every node wiped, and no leaf holds entries |
| OctTreeWalk.NodeCountIsEntries | CSC8503CoreClasses/GameObject.h:109-111 | the length of o's owning list equals o's entries in the tree when the two agree |
| QuadTrees.OverlapsIsAABBTest | CSC8503CoreClasses/QuadTree.h:49-50 | the overlap test used is the AABBTest against the node's square, 1000 high |
| QuadTrees.Inserted | CSC8503CoreClasses/QuadTree.h:48-72 | insertion keeps each node's square and the depth budget |
| QuadTrees.Redistribute | CSC8503CoreClasses/QuadTree.h:63-67 | the split loop keeps the four children's squares and budgets |
| QuadTrees.InsertedWf | CSC8503CoreClasses/QuadTree.h:56-69 | a leaf is asleep exactly when all its entries are; internal nodes are empty and asleep |
| QuadTrees.InsertedPlaced | CSC8503CoreClasses/QuadTree.h:48-81 | entries sit only in leaves they overlap; children sit where Split puts them |
| QuadTrees.InsertSeqSnoc | CSC8503CoreClasses/QuadTree.h:63-67 | re-inserting a list entry by entry is inserting its prefix, then the last entry |
| QuadTrees.NodeInsert | CSC8503CoreClasses/QuadTree.h:48-72 | the looped insertion equals Inserted |
| QuadTrees.NodeRedistribute | CSC8503CoreClasses/QuadTree.h:63-67 | the nested re-insertion loop equals Redistribute |
| QuadTrees.SplitCovers | CSC8503CoreClasses/QuadTree.h:74-81 | an entry of positive extent overlapping a node overlaps one of its four children |
| QuadTrees.InsertKeeps | CSC8503CoreClasses/QuadTree.h:48-72 | nothing held before an insertion is lost by it, even across a split |
| QuadTrees.InsertHolds | CSC8503CoreClasses/QuadTree.h:48-72 | an overlapping entry of positive extent is held after its insertion |
| QuadTrees.VisitsSound | CSC8503CoreClasses/QuadTree.h:120-127 | func receives only non-empty lists with an awake entry |
| QuadTrees.VisitsComplete | CSC8503CoreClasses/QuadTree.h:120-127 | every awake entry reaches func |
| QuadTrees.NodeOperateOnContents | CSC8503CoreClasses/QuadTree.h:120-127 | the looped walk equals Visits |
| QuadTrees.Cleared | CSC8503CoreClasses/QuadTree.h:129-137 | clearing keeps every square and the children count |
| QuadTrees.ClearedEmpty | CSC8503CoreClasses/QuadTree.h:129-137 | a cleared tree holds no entry |
| QuadTrees.NodeClear | CSC8503CoreClasses/QuadTree.h:129-137 | the looped clear equals Cleared |
| QuadTrees.QuadTree.constructor | CSC8503CoreClasses/QuadTree.h:160-165 | a fresh root at the origin with the given size and limits |
| QuadTrees.QuadTree.Insert | CSC8503CoreClasses/QuadTree.h:170-172 | no-op outside the root; nothing held is lost; an overlapping entry is then held |
| QuadTrees.QuadTree.OperateOnContents | CSC8503CoreClasses/QuadTree.h:178-180 | func gets only lists with an awake entry, and every awake entry is in one |
| QuadTrees.QuadTree.Clear | CSC8503CoreClasses/QuadTree.h:182-185 | no entry is left, the structure is kept |
| Contacts.Find | CSC8503CoreClasses/PhysicsSystem.cpp:195-212 | the entry under a key, if any, is in the set with that key |
| Contacts.InsertFind | CSC8503CoreClasses/PhysicsSystem.cpp:249-250 | std::set::insert keeps keys unique, adds only under a missing key and leaves every other key alone |
| Contacts.SetInsert | CSC8503CoreClasses/PhysicsSystem.cpp:250 | afterwards the key is present, as the entry already there or as the new one; every other key finds what it found before |
| Contacts.InsertKeepsCountdown | CSC8503CoreClasses/PhysicsSystem.cpp:401-405 | re-detecting a held pair keeps the stored entry and its countdown |
| Contacts.AgedFind | CSC8503CoreClasses/PhysicsSystem.cpp:195-212 | a pass counts every entry down by one and drops exactly those gone negative |
| Contacts.Aged | CSC8503CoreClasses/PhysicsSystem.cpp:194-213 | the pass never grows the set and leaves no countdown negative |
| Contacts.AgeEvents | CSC8503CoreClasses/PhysicsSystem.cpp:194-213 | the callbacks come in pairs (`Mirrored`): each call on one object of an entry is followed by the same call on the other; at most two pairs per entry |
| Contacts.BeginFired | CSC8503CoreClasses/PhysicsSystem.cpp:196-199 | Begin on both objects exactly for entries standing at numCollisionFrames |
| Contacts.EndFired | CSC8503CoreClasses/PhysicsSystem.cpp:202-208 | End on both objects exactly for entries whose decremented count is negative |
| Contacts.Lifetime | CSC8503CoreClasses/PhysicsSystem.cpp:194-213 | an entry at f survives f passes counting down and is gone after pass f + 1 |
| Contacts.Without | CSC8503CoreClasses/PhysicsSystem.cpp:44-51 | purging keeps only entries involving neither side o |
| Contacts.WithoutKeeps | CSC8503CoreClasses/PhysicsSystem.cpp:44-51 | every entry not involving o survives, and keys stay unique |
| Contacts.Canon | CSC8503CoreClasses/PhysicsSystem.cpp:376-377 | the pair is (min, max) of the two objects |
| Contacts.CanonSymmetric | CSC8503CoreClasses/PhysicsSystem.cpp:375-377 | (A, B) and (B, A) give one entry |
| Contacts.AddPair | CSC8503CoreClasses/PhysicsSystem.cpp:380 | inserting keeps the broadphase set duplicate-free and adds exactly the pair |
| Contacts.AddLeafPairs | CSC8503CoreClasses/PhysicsSystem.cpp:364-382 | exactly the leaf's pairs not asleep on both sides are added, as (min, max) |
| Contacts.ProjectionGap | CSC8503CoreClasses/PhysicsSystem.cpp:275-277 | the projection widens the gap between the bodies by exactly the push |
| Contacts.ProjectionCentre | CSC8503CoreClasses/PhysicsSystem.cpp:275-277 | the projection keeps the inverse-mass-weighted centre in place |
| Contacts.ImpulseResolveCollision | CSC8503CoreClasses/PhysicsSystem.cpp:269-277 | two static bodies: nothing moves; otherwise separation by exactly normal * penetration, centre kept, an immovable body unmoved |
| Physics.RateFloor | CSC8503CoreClasses/PhysicsSystem.cpp:80-81 | a step rate between 1 and idealHZ gives a step between idealDT and one second |
| Physics.AdaptAsWritten | CSC8503CoreClasses/PhysicsSystem.cpp:151-168 | the rate rule as written: never above idealHZ, a slow frame doubles realDT |
| Physics.RateRunsAway | CSC8503CoreClasses/PhysicsSystem.cpp:151-168 | seven slow frames then eight idle ones leave realHZ 0 and realDT half the ideal step |
| Physics.Adapt | CSC8503CoreClasses/PhysicsSystem.cpp:151-168 | the corrected rule: a slow frame lowers the rate, a quick one raises it, within 1..idealHZ |
| Physics.Frames | CSC8503CoreClasses/PhysicsSystem.cpp:151-168 | the rate after any run of frames under the corrected rule stays in 1..idealHZ |
| Physics.RateStaysBounded | CSC8503CoreClasses/PhysicsSystem.cpp:151-168 | under the corrected rule the step stays between idealDT and one second |
| Physics.ConstraintPasses | CSC8503CoreClasses/PhysicsSystem.cpp:132-135 | constraintIterationCount passes, each over realDT / count |
| Physics.PhysicsSystem.constructor | CSC8503CoreClasses/PhysicsSystem.cpp:15-23 | gravity (0,-9.8,0), damping 0.995, broadphase on, 10 constraint passes, ideal rate, empty 1024 x 256 x 1024 tree of depth 7 and size 6 |
| Physics.PhysicsSystem.SetGravity | CSC8503CoreClasses/PhysicsSystem.cpp:29-31 | gravity is set |
| Physics.PhysicsSystem.AddObject | CSC8503CoreClasses/PhysicsSystem.cpp:33-42 | the broadphase box is recomputed from the volume; no volume, or a box outside the world: the tree is untouched; on success the object's entry is held by every overlapping leaf and nothing held before is lost, the tree agreeing with the owning lists; a failure leaves a node holding an object twice |
| Physics.PhysicsSystem.RemoveObject | CSC8503CoreClasses/PhysicsSystem.cpp:44-51 | the set keeps exactly the entries involving neither side o |
| Physics.PhysicsSystem.Clear | CSC8503CoreClasses/PhysicsSystem.cpp:63-67 | no collisions, a new empty tree |
| Physics.AgeEntry | CSC8503CoreClasses/PhysicsSystem.cpp:196-211 | one entry of the pass: Begin on both objects exactly when it stands at the full countdown, End on both exactly when the decremented count is negative, and it is kept, counted down by one, exactly otherwise |
| Physics.AgeCollisions | CSC8503CoreClasses/PhysicsSystem.cpp:195-212 | the loop's kept entries are exactly one aging pass (`Aged`) of the set and its callbacks exactly `AgeEvents`: Begin pairs at a full countdown, End pairs once the count goes negative |
| Physics.PhysicsSystem.UpdateCollisionList | CSC8503CoreClasses/PhysicsSystem.cpp:194-213 | the new set is one aging pass of the old, the callbacks are those of the pass |
| Physics.PhysicsSystem.BroadPhase | CSC8503CoreClasses/PhysicsSystem.cpp:341-387 | every non-empty leaf is visited, and the rebuilt set holds exactly the (min, max) pairs of objects sharing a visited leaf, not both asleep; a failure of the re-filing leaves a node holding an object twice |
| Physics.PhysicsSystem.NarrowPhase | CSC8503CoreClasses/PhysicsSystem.cpp:394-408 | under every key: held entries unchanged, a touching broadphase pair added with a full countdown |
| Physics.PhysicsSystem.BasicCollisionDetection | CSC8503CoreClasses/PhysicsSystem.cpp:231-254 | the same, over every pair i < j of bodies with physics |
| Physics.PhysicsSystem.DetectRow | CSC8503CoreClasses/PhysicsSystem.cpp:240-252 | after object i's inner loop, every pair i < j with physics has been tested, and keys stay unique |
| Physics.PhysicsSystem.DetectPass | CSC8503CoreClasses/PhysicsSystem.cpp:121-127 | with the broadphase, the narrow phase tests exactly the pairs BroadPhase gathered; without it, every pair of bodies with physics; touching tested pairs join the set, held entries untouched |
| Physics.PhysicsSystem.OneSubstep | CSC8503CoreClasses/PhysicsSystem.cpp:120-139 | one substep's detection adds its contacts to what the earlier substeps left, and its constraint passes split realDT evenly |
| Physics.PhysicsSystem.Substeps | CSC8503CoreClasses/PhysicsSystem.cpp:119-140 | steps of realDT while more is owed, ending owing at most realDT; each step detects collisions and has its constraint passes; the set ends with every touching pair some step tested, entries already held untouched |
| Physics.PhysicsSystem.AdaptRate | CSC8503CoreClasses/PhysicsSystem.cpp:151-168 | the corrected rate rule, realDT = 1 / realHZ |
| Physics.PhysicsSystem.Update | CSC8503CoreClasses/PhysicsSystem.cpp:92-169 | dt accumulated; the substeps' contacts join the set, which the aging pass then counts down; a pair first touching this frame fires Begin on both objects; the rate rule applied |
| Physics.NewContactBegins | CSC8503CoreClasses/PhysicsSystem.cpp:196-199 | an entry standing at a full countdown at the end of the frame fires Begin on both of its objects |
| Bodies.SleepStep | CSC8503CoreClasses/PhysicsObject.cpp:57-84 | the three outcomes of a sleep check: moved wakes and resets, asleep-still stays, awake falls asleep only after a second of progress close to where it stopped |
| Bodies.PhysicsObject.constructor | CSC8503CoreClasses/PhysicsObject.cpp:7-20 | inverse mass 1, elasticity and friction 0.8, no axis locked, the given sleep, both positions at the transform |
| Bodies.PhysicsObject.SetLinearVelocity | CSC8503CoreClasses/PhysicsObject.h:52-54 | read back by GetLinearVelocity |
| Bodies.PhysicsObject.SetAngularVelocity | CSC8503CoreClasses/PhysicsObject.h:56-58 | read back by GetAngularVelocity |
| Bodies.PhysicsObject.SetInverseMass | CSC8503CoreClasses/PhysicsObject.h:31-35 | stored; zero also puts the body to sleep, nonzero leaves sleep |
| Bodies.PhysicsObject.SetNotSleeping | CSC8503CoreClasses/PhysicsObject.h:60-64 | awake; progress reset only if it was asleep |
| Bodies.PhysicsObject.SetAxisLock | CSC8503CoreClasses/PhysicsObject.h:78-80 | each mask component is 0 if locked, 1 otherwise |
| Bodies.PhysicsObject.ApplyAngularImpulse | CSC8503CoreClasses/PhysicsObject.cpp:26-28 | angular velocity gains inverseInertiaTensor * impulse, masked by the locks; a locked axis never changes |
| Bodies.PhysicsObject.ApplyLinearImpulse | CSC8503CoreClasses/PhysicsObject.cpp:30-32 | velocity gains impulse * inverseMass; an immovable body is unchanged |
| Bodies.PhysicsObject.AddForce | CSC8503CoreClasses/PhysicsObject.cpp:34-37 | force accumulates, the body is awake |
| Bodies.PhysicsObject.AddForceAtPosition | CSC8503CoreClasses/PhysicsObject.cpp:39-45 | force accumulates and torque gains (p - position) x f; awake |
| Bodies.PhysicsObject.AddTorque | CSC8503CoreClasses/PhysicsObject.cpp:47-50 | torque accumulates, the body is awake |
| Bodies.PhysicsObject.ClearForces | CSC8503CoreClasses/PhysicsObject.cpp:52-55 | force and torque are zero, nothing else changes |
| Bodies.PhysicsObject.AddSleepProgress | CSC8503CoreClasses/PhysicsObject.cpp:57-84 | the sleep fields become SleepStep of the old ones |
| Objects.ExtentBoundsVolume | CSC8503CoreClasses/GameObject.cpp:38-55 | the cached broadphase box contains the rotated volume |
| Objects.ExtentUnrotated | CSC8503CoreClasses/GameObject.cpp:42-53 | an unrotated oriented box caches its half-sizes, as an axis-aligned one does |
| Objects.GameObject.constructor | CSC8503CoreClasses/GameObject.cpp:10-20 | world ID -1, active, no components, restitution and friction 0.66 |
| Objects.GameObject.SetBoundingVolume | CSC8503CoreClasses/GameObject.h:21-23 | read back by GetBoundingVolume |
| Objects.GameObject.SetPhysicsObject | CSC8503CoreClasses/GameObject.h:53-55 | read back by GetPhysicsObject |
| Objects.GameObject.SetRenderObject | CSC8503CoreClasses/GameObject.h:49-51 | read back by GetRenderObject |
| Objects.GameObject.SetNetworkObject | CSC8503CoreClasses/GameObject.h:57-59 | read back by GetNetworkObject |
| Objects.GameObject.SetWorldID | CSC8503CoreClasses/GameObject.h:77-83 | read back by GetWorldID |
| Objects.GameObject.setCRest | CSC8503CoreClasses/GameObject.h:85-91 | read back by getCRest |
| Objects.GameObject.setCFric | CSC8503CoreClasses/GameObject.h:93-99 | read back by getCFric |
| Objects.GameObject.OnCollisionBegin | CSC8503CoreClasses/GameObject.h:65-67 | changes nothing |
| Objects.GameObject.OnCollisionEnd | CSC8503CoreClasses/GameObject.h:69-71 | changes nothing |
| Objects.GameObject.GetBroadphaseAABB | CSC8503CoreClasses/GameObject.cpp:30-36 | false with outSize untouched exactly when there is no volume, else the cached box |
| Objects.GameObject.UpdateBroadphaseAABB | CSC8503CoreClasses/GameObject.cpp:38-55 | no volume: unchanged; AABB: its half-sizes; sphere: (r, r, r); OBB: abs(rotation) * half-sizes |
| Worlds.Closest | CSC8503CoreClasses/GameWorld.cpp:151-164 | the reported object has a volume, is not ignored, and is nearest of all struck, and every struck object before it in the list is strictly farther (the first of the nearest, as the strict `<` keeps it); none only if nothing struck is nearer than FLT_MAX |
| Worlds.FirstHit | CSC8503CoreClasses/GameWorld.cpp:136-150 | none exactly when nothing is struck; otherwise a struck object of the list |
| Worlds.FirstHitFrom | CSC8503CoreClasses/GameWorld.cpp:136-150 | the report is the first struck object in list order, with its own hit |
| Worlds.FirstHitAsWritten | CSC8503CoreClasses/GameWorld.cpp:146-150 | names a struck object exactly when one exists, but always at the origin and FLT_MAX away |
| Worlds.FirstHitLosesDistance | CSC8503CoreClasses/GameWorld.cpp:146-150 | both versions name the same object; the written one loses any distance below FLT_MAX |
| Worlds.GameWorld.constructor | CSC8503CoreClasses/GameWorld.cpp:13-20 | empty lists, no shuffles, both counters 0 |
| Worlds.GameWorld.Clear | CSC8503CoreClasses/GameWorld.cpp:25-32 | objects, goats and constraints emptied, maze null, counters 0, flags and physics kept |
| Worlds.GameWorld.SetPhysicsSystem | CSC8503CoreClasses/GameWorld.h:69-71 | the physics system is set |
| Worlds.GameWorld.NewPhysicsSystem | CSC8503CoreClasses/PhysicsSystem.cpp:15-23 | a physics system built for the world registers itself there: the world points at the new system, which starts in the constructor's state |
| Worlds.GameWorld.AddGameObject | CSC8503CoreClasses/GameWorld.cpp:46-51 | appended, world ID = old counter, both counters + 1; in the physics tree its entry is then held by every overlapping leaf, nothing held before lost |
| Worlds.GameWorld.RemoveGameObject | CSC8503CoreClasses/GameWorld.cpp:53-60 | every occurrence removed, the rest in order; its collisions purged; state counter + 1; with andDelete the destructor takes it out of the tree, so no node holds it; without, the tree is untouched |
| Worlds.GameWorld.AddGoat | CSC8503CoreClasses/GameWorld.cpp:62-65 | in both the goats and the objects, and held by the tree as AddGameObject puts it |
| Worlds.GameWorld.RemoveGoat | CSC8503CoreClasses/GameWorld.cpp:67-70 | out of both, with the object's removal, the tree included when deleted |
| Worlds.GameWorld.AddMaze | CSC8503CoreClasses/GameWorld.cpp:72-74 | read back by GetMaze |
| Worlds.GameWorld.RemoveMazeNode | CSC8503CoreClasses/GameWorld.cpp:76-79 | the maze cell under the node opens, the node leaves the world and, deleted, the tree |
| Worlds.GameWorld.GetGoatsInMaze | CSC8503CoreClasses/GameWorld.cpp:81-88 | every goat, in order |
| Worlds.GameWorld.CalculatePathInMaze | CSC8503CoreClasses/GameWorld.cpp:90-101 | found iff both ends are on the grid and a route exists; the route's positions start first; none otherwise |
| Worlds.PopAll | CSC8503CoreClasses/GameWorld.cpp:95-99 | popping every waypoint yields them reversed and empties the path |
| Worlds.RouteForward | CSC8503CoreClasses/GameWorld.cpp:90-101 | the reversed route runs from the start cell to the end cell, each cell linked from the one before |
| Worlds.GameWorld.UpdateWorld | CSC8503CoreClasses/GameWorld.cpp:117-130 | objects, then constraints, permuted only when their shuffle is on |
| Worlds.GameWorld.Raycast | CSC8503CoreClasses/GameWorld.cpp:132-165 | found exactly when an object is reported; closest mode reports Closest, first-hit mode FirstHit; else closestCollision kept |
| Worlds.GameWorld.AddConstraint | CSC8503CoreClasses/GameWorld.cpp:172-174 | appended |
| Worlds.GameWorld.RemoveConstraint | CSC8503CoreClasses/GameWorld.cpp:176-181 | every occurrence removed, the rest in order |
| Worlds.GameWorld.ShuffleConstraints | CSC8503CoreClasses/GameWorld.h:43-45 | only the flag changes |
| Worlds.GameWorld.ShuffleObjects | CSC8503CoreClasses/GameWorld.h:47-49 | only the flag changes |
| Common.RemoveAll | CSC8503CoreClasses/GameWorld.cpp:53-60 | erase-remove: exactly the other elements, in their relative order |
| Common.RemoveAllAbsent | CSC8503CoreClasses/GameWorld.cpp:176-181 | removing an absent element changes nothing |
| Navigation.Layout | CSC8503CoreClasses/NavigationGrid.cpp:34-43 | one cell per grid square, width * height of them |
| Navigation.LayoutCell | CSC8503CoreClasses/NavigationGrid.cpp:36-41 | cell (x, z) is at index w*z + x, with the type read and position zeroPos + (x, 0, z) * nodeSize |
| Navigation.IdxInRange | CSC8503CoreClasses/NavigationGrid.cpp:36 | the index of an in-grid square lies within the cell array |
| Navigation.Decode | CSC8503CoreClasses/NavigationGrid.cpp:36 | the index gives back x and z |
| Navigation.Encode | CSC8503CoreClasses/NavigationGrid.cpp:36 | every index of the cell array is the index of one in-grid square |
| Navigation.NeighbourFacts | CSC8503CoreClasses/NavigationGrid.cpp:54-65 | a neighbour is another in-bounds cell, and its neighbour back is this cell |
| Navigation.ConnectKeeps | CSC8503CoreClasses/NavigationGrid.cpp:48-79 | relinking changes only links and costs: every cell keeps its type and position, and links stay within the grid |
| Navigation.Connect | CSC8503CoreClasses/NavigationGrid.cpp:48-79 | the same cells, four links and costs each, types and positions kept |
| Navigation.LinkRule | CSC8503CoreClasses/NavigationGrid.cpp:54-76 | a link leads to an in-bounds neighbour exactly when it is no wall, cost 1 to a floor cell; to a wall it is cut at cost 0 |
| Navigation.OpenedCellReachable | CSC8503CoreClasses/NavigationGrid.cpp:81-95 | an opened cell is linked from each in-bounds neighbour at cost 1 |
| Navigation.NodeInList | CSC8503CoreClasses/NavigationGrid.cpp:213-216 | list membership |
| Navigation.BestIndexFirstMinimum | CSC8503CoreClasses/NavigationGrid.cpp:218-232 | the taken cell has the lowest f, every earlier cell a strictly higher one |
| Navigation.NoRoute | CSC8503CoreClasses/NavigationGrid.cpp:170-210 | once the open list is empty no route reaches an end cell outside the closed cells |
| Navigation.NavigationPath.constructor | CSC8503CoreClasses/GameWorld.cpp:92 | an empty path |
| Navigation.NavigationPath.PushWaypoint | CSC8503CoreClasses/NavigationGrid.cpp:176 | appended at the back |
| Navigation.NavigationPath.PopWaypoint | CSC8503CoreClasses/GameWorld.cpp:96-98 | the last waypoint pushed comes off; false and nothing changed on an empty path |
| Navigation.NavigationGrid.constructor | CSC8503CoreClasses/NavigationGrid.cpp:24-46 | the sizes read, the cells laid out, then linked |
| Navigation.LayOut | CSC8503CoreClasses/NavigationGrid.cpp:34-43 | the nested loops lay out exactly the cells of Layout, row by row |
| Navigation.LayRow | CSC8503CoreClasses/NavigationGrid.cpp:35-42 | one row appends cells (0, z) to (w - 1, z), each the cell of its index |
| Navigation.NavigationGrid.UpdateConnections | CSC8503CoreClasses/NavigationGrid.cpp:48-79 | the nested loops compute Connect |
| Navigation.NavigationGrid.RelinkRow | CSC8503CoreClasses/NavigationGrid.cpp:51-77 | after row z, every cell up to the row's end is its linked version and the rest untouched |
| Navigation.NavigationGrid.RelinkCell | CSC8503CoreClasses/NavigationGrid.cpp:52-76 | one cell's links and costs as the rule gives them |
| Navigation.NavigationGrid.RemoveNode | CSC8503CoreClasses/NavigationGrid.cpp:81-95 | outside the grid nothing; inside, the cell becomes floor and links are rebuilt |
| Navigation.NavigationGrid.FullyWithinOpenNodes | CSC8503CoreClasses/NavigationGrid.cpp:97-123 | true exactly when both corner cells are in the grid and no cell between them is a wall |
| Navigation.NavigationGrid.RemoveBestNode | CSC8503CoreClasses/NavigationGrid.cpp:218-232 | takes the first cell of lowest f and erases exactly it |
| Navigation.NavigationGrid.Expand | CSC8503CoreClasses/NavigationGrid.cpp:182-207 | scoring the neighbours keeps the search's open/closed invariants |
| Navigation.NavigationGrid.ExpandLink | CSC8503CoreClasses/NavigationGrid.cpp:182-206 | one neighbour: the open list only grows, the linked neighbour ends open or closed, other cells keep their place in the grid, and the search's frontier and closure invariants hold |
| Navigation.NavigationGrid.PushRoute | CSC8503CoreClasses/NavigationGrid.cpp:173-179 | the pushed cells are a linked route from the end cell to the start, start last |
| Navigation.NavigationGrid.FindPath | CSC8503CoreClasses/NavigationGrid.cpp:136-211 | off-grid ends: false, path untouched; otherwise true exactly when a route exists, and then such a route is pushed |
| Navigation.NavigationGrid.Search | CSC8503CoreClasses/NavigationGrid.cpp:159-210 | succeeds exactly when a route of links exists, pushing one |
| Navigation.NavigationGrid.SearchStep | CSC8503CoreClasses/NavigationGrid.cpp:171-207 | the best node is closed: the end node pushes a route of links; otherwise the frontier and its closure are kept and one more node is closed |
| Behaviours.Parallel | CSC8503CoreClasses/BehaviourParallel.h:10-22 | Ongoing iff some child is Ongoing; Success otherwise |
| Behaviours.FailuresSucceed | CSC8503CoreClasses/BehaviourParallel.h:14-15 | all children failing, or none, is Success |
| Behaviours.Results | CSC8503CoreClasses/BehaviourParallel.h:11-12 | each child run once, in order |
| Behaviours.BehaviourParallel.Execute | CSC8503CoreClasses/BehaviourParallel.h:8-23 | every child run in order with no early stop; state and currentState are the fold |
| Behaviours.BehaviourParallel.AddChild | CSC8503/BehaviourTreeObject.h:127-128 | a child appended |
| Observers.SimpleObserver.RecieveMessage | CSC8503CoreClasses/SimpleObserver.h:9-11 | the notification is added, nothing lost, a repeat kept once |
| Observers.SimpleObserver.ClearPreviousNotifications | CSC8503CoreClasses/SimpleObserver.h:19-21 | no notifications left |
| Observers.Received | CSC8503CoreClasses/SimpleObserver.h:9-16 | after a run, exactly the senders are held |
| Observers.ReceivedIgnoresRepeats | CSC8503CoreClasses/SimpleObserver.h:9-11 | notifying twice is notifying once, in any order |
| Goats.Goat.constructor | CSC8503CoreClasses/Goat.h:12 | no civilians hit, no game |
| Goats.Goat.SetGame | CSC8503CoreClasses/Goat.h:31-33 | the game is set |
| Goats.Goat.AddHitCivilian | CSC8503CoreClasses/Goat.h:35-37 | idempotent; a new civilian raises the score by one |
| Goats.Goat.OnCollisionBegin | CSC8503CoreClasses/Goat.h:14-27 | a new civilian: delegated with a game, else recorded with score + 1; anything else changes nothing |
| Goats.HitAfter | CSC8503CoreClasses/Goat.h:29-37 | the hit set after a run of collisions is the distinct civilians |
| Goats.RepeatsScoreNothing | CSC8503CoreClasses/Goat.h:18 | hitting the same civilians again adds nothing to the score |
| Console.Digits | CSC8503/Main.cpp:43 | std::to_string of a non-negative number: its digits spell it |
| Console.Value | CSC8503/Main.cpp:52 | std::stoi of n digits: a number from 0 to 10^n - 1 |
| Console.IntToString | CSC8503/Main.cpp:43 | std::to_string has no dot, and a non-negative number's text is its digits |
| Console.IPAsString | CSC8503/Main.cpp:42-44 | split at its dots, the address gives back the four numbers' texts |
| Console.OctetPatternIsOctet | CSC8503/Main.cpp:51 | each regex field accepts exactly 1-3 digits of value at most 255 |
| Console.OctetPattern | CSC8503/Main.cpp:51 | a field the pattern accepts is one to three digits |
| Console.Find | CSC8503/Main.cpp:52-58 | the first dot, or the end |
| Console.Fields | CSC8503/Main.cpp:52-58 | the dot-free pieces of the input |
| Console.MatchesIP | CSC8503/Main.cpp:51 | the pattern matches exactly the inputs made of four dot-separated octets |
| Console.FieldsOfFour | CSC8503/Main.cpp:43 | four dot-free strings joined by dots split back into the same four |
| Console.ParseIP | CSC8503/Main.cpp:51-59 | four numbers exactly when the pattern matches, each 0..255 |
| Console.IPRoundTrip | CSC8503/Main.cpp:42-59 | IPAsString of four octets matches and parses back to the same four |
| Console.Globals.constructor | CSC8503/Main.cpp:36-40 | option 0, the server 127.0.0.1 |
| Console.EnterIPScreen.OnUpdate | CSC8503/Main.cpp:47-63 | a matching address sets a..d field by field and pops; otherwise NoChange and nothing changed |
| Console.TakeField | CSC8503/Main.cpp:52-53 | the number of the first field, and the text after its dot, whose fields are the rest |
| Console.IntroScreen.OnUpdate | CSC8503/Main.cpp:73-97 | '1', '2', '3', '5' set the option and pop; '4' pushes a new address screen; anything else NoChange |
| Console.StartGame | CSC8503/Main.cpp:150-164 | a game starts only for options 1-3; 3 is the client of a.b.c.d |
| Console.Steady | CSC8503/Main.cpp:170-175 | exactly the frames of at most a second, each frame time as often as it occurs in the input (multiset), in their relative order; frames over a second never |
| Console.MainLoop | CSC8503/Main.cpp:170-195 | the game is updated with the Steady frames |

## Left out

- Floating point: every `float` is a `real`, so no rounding is modelled. FLT_MIN and FLT_MAX appear as constants.
- `CollisionDetection::ObjectIntersection` and `RayIntersection` are parameters (`detect`, `hit`). CollisionDetection.h is not part of this model. `AABBTest` and `AABBFullyWithin` are taken as per-axis strict overlap and per-axis containment.
- `CollisionInfo`'s ordering is taken to compare only the pair (a, b). A `std::set` becomes a sequence with one entry per key, in insertion order, so iteration order is insertion order, not pointer order.
- A re-detected contact keeps its countdown, as the code does (`std::set::insert` ignores an equal element); it is not refreshed.
- `PhysicsSystem::IntegrateAccel`, `IntegrateVelocity`, `CheckSleeping`, `ClearForces` and the constraint solver: the substep records the order and the step of each phase, not the motion. So the objects, their sleep states, positions and broadphase sizes (`UpdateObjectAABBs`) and the contact test `detect` are parameters of `Update`, fixed for the whole frame.
- The velocity part of `ImpulseResolveCollision` is left out: the linear restitution impulse `j = -(1 + cRestitution) * impulseForce / (totalMass + angularEffect)` applied as `ApplyLinearImpulse(∓fullImpulse)` (PhysicsSystem.cpp:302-307), and the angular and friction terms. Its guard and positional projection are modelled as `Contacts.ImpulseResolveCollision`, on its own; the detection passes do not call it.
- Physics.PhysicsSystem.NarrowPhase: `detect` is fixed for the whole pass, so the resolution after each hit (PhysicsSystem.cpp:404), which moves the two bodies before later pairs are tested, is not applied between tests.
- Physics.PhysicsSystem.BasicCollisionDetection: likewise, the resolution after each hit (PhysicsSystem.cpp:248) is not applied between tests.
- Physics.PhysicsSystem.DetectRow: likewise, the row's tests do not see the resolution at PhysicsSystem.cpp:248.
- Physics.PhysicsSystem.constructor: takes no world. Its registration with `g.SetPhysicsSystem(this)` is stated by `Worlds.GameWorld.NewPhysicsSystem`, which builds the system and registers it.
- Physics.PhysicsSystem.AddObject: requires an object with a collision volume to have a physics body. The source reads that body's sleep state without a check (PhysicsSystem.cpp:41); the null dereference is left out.
- Worlds.GameWorld.AddGameObject: the same requirement, for the same reason.
- Worlds.GameWorld.AddGoat: the same requirement, for the same reason.
- The keyboard toggles, `GameTimer`, `std::cout` and `DebugDraw` in `PhysicsSystem::Update`. The frame's physics time is the parameter `updateTime`.
- `realHZ`, `realDT` and `constraintIterationCount` are file-scope globals in the source (PhysicsSystem.cpp:77 and 89-90); here they are fields of `PhysicsSystem`, so two systems would not share them. `numCollisionFrames` (declared in PhysicsSystem.h, which is not part of this model) is a constructor parameter.
- Physics.PhysicsSystem.AdaptRate and Update use the corrected rate rule (see Findings), not the rule as written.
- `OctTree::Clear` empties the leaves but leaves the objects' owning lists naming them; `PhysicsSystem::Clear` builds a new tree instead and never calls it. `OctTrees.OctTree.Clear` therefore promises tree shape, not agreement with the lists.
- A `RemoveOwningNode` throw ends the program; the operations that reach it return `ok == false`, and promise only that the tree then has a node holding some object twice (`OctTreeHeld.Stuck`), the one state in which the throw can happen.
- OctTrees.OctTree.Insert: no condition under which insertion succeeds is proved; only that a failure leaves a node holding an object twice. Proving that a tree without such nodes, inserting an object it does not hold, never fails would need the independence of sibling subtrees, which the arena model does not state.
- OctTrees.OctTree.NodeInsert: the entry being held by the overlapping leaves and nothing held being lost are promised only when `ok` holds; no condition under which it holds is proved (see `OctTrees.OctTree.Insert`).
- OctTrees.OctTree.InsertIntoChildren: the entry reaching the eight children's overlapping leaves is promised only when `ok` holds; no success condition is proved (see `OctTrees.OctTree.Insert`).
- OctTrees.OctTree.NodeReinsert: the former entry reaching the children is promised only when `ok` holds; no success condition is proved (see `OctTrees.OctTree.Insert`).
- OctTrees.OctTree.NodeRedistribute: proves that success means the leaf held each object once, and that failure means some node holds an object twice, but not that a duplicate-free leaf always succeeds: a child split during the loop would need sibling-subtree independence (see `OctTrees.OctTree.Insert`).
- OctTrees.OctTree.RedistributeEntry: the entry being held below the children is promised only when `ok` holds; no success condition is proved (see `OctTrees.OctTree.Insert`).
- OctTrees.OctTree.NodeRelocate: where the object is re-inserted is promised only when `ok` holds; no success condition is proved (see `OctTrees.OctTree.Insert`).
- OctTrees.OctTree.NodeUpdate: the relocation outcome is promised only when `ok` holds; no success condition is proved (see `OctTrees.OctTree.Insert`).
- OctTrees.OctTree.NotifyOwningNodes: agreement afterwards is promised only when `ok` holds, and no success condition is proved (see `OctTrees.OctTree.Insert`); where the moved object ends up is stated on `NodeUpdate`, not lifted through the walk over the owning list.
- Physics.PhysicsSystem.AddObject: the object being held by the tree is promised only when the insertion's `ok` holds; no success condition is proved (see `OctTrees.OctTree.Insert`).
- Physics.PhysicsSystem.BroadPhase: the rebuilt pair set is promised only when the re-filing's `ok` holds; no success condition is proved (see `OctTrees.OctTree.Insert`). An object without a physics body is treated as awake (not in `asleep`), where the source dereferences its null `GetPhysicsObject()` (PhysicsSystem.cpp:356 and 369); that crash is not modelled.
- Physics.PhysicsSystem.DetectPass: with the broadphase on, the detection result is promised only when `BroadPhase`'s `ok` holds; no success condition is proved, and it inherits `BroadPhase`'s treatment of objects without a physics body.
- Physics.PhysicsSystem.OneSubstep: the detection result is promised only when `DetectPass`'s `ok` holds; no success condition is proved.
- Physics.PhysicsSystem.Substeps: the accumulator and detection results are promised only when every substep's `ok` holds; no success condition is proved.
- Physics.PhysicsSystem.Update: the whole frame is promised only when the substeps' `ok` holds; no success condition is proved, and it inherits `BroadPhase`'s treatment of objects without a physics body.
- Worlds.GameWorld.AddGameObject: the object being held by the tree is promised only when the insertion's `ok` holds; no success condition is proved (see `OctTrees.OctTree.Insert`).
- Worlds.GameWorld.AddGoat: the same as `AddGameObject`, which it calls.
- "Held" means held by every overlapping leaf that the descent from the root meets before `maxDepth`, as `Insert` descends (`OctTreeHeld.Reaches`), not a geometric statement about all leaves.
- QuadTrees: nodes are values returned updated, not nodes changed in place, because no member reads the parent link. The no-loss lemmas require entries of positive extent (`Solid`), since a flat box exactly on a split line overlaps neither half under the strict test.
- `GameObject::UpdateBroadphaseAABB`'s OBB case is stated, but rotation matrices are any matrices: the quaternion conversion is not modelled.
- `PhysicsObject::InitCubeInertia`, `InitSphereInertia` and `UpdateInertiaTensor`: inertia is a field set elsewhere.
- `PhysicsObject::sleepProgress` is never initialised by the source; the model starts it at 0. `Goat::game` is never initialised; the model starts it at none.
- The civilian's `SetColour` render call in `Goat::OnCollisionBegin`, and `NetworkedGame::OnPlayerCivilianCollision` (reported as `delegated`).
- `GameWorld::ClearAndErase`, `OperateOnContents`, `GetObjectIterators`, `GetConstraintIterators` and the camera. Of the `delete` through `andDelete`, the destructor's `RemoveFromTree` is modelled; freeing the components is memory management.
- `GameWorld`'s `physicsSystem` and `maze` pointers are not initialised by its constructor; the model starts them at null.
- `GameWorld::UpdateWorld`'s clock-seeded `std::shuffle` is an arbitrary permutation.
- Worlds.NoCollision: `RayCollision`'s defaults (no node, the origin, FLT_MAX away) are assumed, because Ray.h is not part of this model; `Worlds.FirstHitAsWritten`'s "at the origin, FLT_MAX away" rests on them.
- Worlds.GameWorld.Raycast: first-hit mode returns the object's own hit point and distance (the corrected behaviour, see Findings).
- `NavigationGrid`'s file reading is replaced by the parameters `size`, `width`, `height` and `cells`; `Print` is left out. The `Heuristic` is the parameter `dist`, since it only orders the search and never decides whether a path is found.
- NavigationGrid.h and NavigationPath.h are not part of this model: the cell layout and the waypoint stack are inferred from their use.
- Navigation.NavigationGrid.RemoveNode: requires `nodeSize != 0`. The source divides by `nodeSize` (NavigationGrid.cpp:83-84), which starts at 0 (line 19) and is read from the file; an integer division by zero is undefined behaviour, not modelled.
- Navigation.NavigationGrid.FullyWithinOpenNodes: requires `nodeSize != 0`, for the division at NavigationGrid.cpp:101-104, for the same reason.
- Navigation.NavigationGrid.CellAt: requires `nodeSize != 0`, for the division at NavigationGrid.cpp:83-84, for the same reason.
- Navigation.NavigationGrid.Corners: requires `nodeSize != 0`, for the division at NavigationGrid.cpp:101-104, for the same reason.
- Navigation.NavigationGrid.FindPath: requires `nodeSize != 0`, for the division at NavigationGrid.cpp:140-144, for the same reason.
- Worlds.GameWorld.RemoveMazeNode: requires the maze's `nodeSize != 0`, because it calls `RemoveNode` (NavigationGrid.cpp:83-84).
- Worlds.GameWorld.CalculatePathInMaze: requires the maze's `nodeSize != 0`, because it calls `FindPath` (NavigationGrid.cpp:140-144).
- Navigation.NavigationGrid.FindPath: promises that a path exists iff one is found, not that it is the shortest, since `dist` is arbitrary.
- BehaviourNode.h and BehaviourNodeWithChildren.h are not part of this model: a node starts at `Initialise` with no children, and `AddChild` appends.
- `PushdownMachine` and `StartConsoleMenu`'s loop, the window calls, `std::cin`/`std::cout`: the input line is a parameter.
- Console.Value: `std::stoi` is modelled only on strings of digits, the only strings the address pattern lets through.

## Findings

| source | as written | input that shows it | evidently intended | confidence | as-written member | corrected member |
|---|---|---|---|---|---|---|
| CSC8503CoreClasses/PhysicsSystem.cpp:151-168 | a slow frame halves `realHZ` by integer division with no floor, and the reset to `idealDT` only fires when `realHZ` exceeds `idealHZ` | seven frames whose physics takes 10 s, then eight idle frames: `realHZ` is 0 and `realDT` half the ideal step | `realHZ` stays in 1..idealHZ and `realDT` is always 1 / realHZ | not executed | Physics.RateRunsAway | Physics.RateStaysBounded |
| CSC8503CoreClasses/GameWorld.cpp:146-150 | first-hit mode copies the still-empty running `collision` and only sets its `node` | one object with a volume that the ray meets 3 units away: reported at the origin, FLT_MAX away | the reported collision is that object's own hit | not executed | Worlds.FirstHitLosesDistance | Worlds.FirstHitFrom |
