/**
 * OctTree<GameObject> and its nodes, together with the owning-node lists the
 * objects keep (GameObject::AddOwningNode, RemoveOwningNode,
 * NotifyOwningNodes, RemoveFromTree, GetNodeCount).
 *
 * The nodes live in one arena, `nodes`, with the root at index 0; a node
 * pointer becomes its index. Each object's owningNodes list is `owning[o]`.
 * The methods named Node* are the OctTreeNode members, applied to node c.
 *
 * GameObject::RemoveOwningNode throws when the node is not in the list; the
 * exception is never caught, so the program ends. The operations that can
 * reach it return ok == false there, and promise nothing further.
 */
module OctTrees {
  import opened Common
  import opened Collision
  import opened OctTreeShape
  import opened OctTreeSteps
  import opened OctTreeWalk
  import opened OctTreeHeld

  class OctTree {
    var nodes: seq<Node>
    var owning: map<ObjId, seq<NodeId>>
    const maxDepth: int
    const maxSize: int

    /** The arena is a well-formed tree, owning lists name its nodes, and only leaves hold entries. */
    ghost predicate Valid()
      reads this
    {
      Structured(nodes, maxDepth) && InRange(nodes, owning) && LeavesOnly(nodes)
    }

    /** Every object's owning list agrees with the contents of every node. */
    ghost predicate Consistent()
      reads this
    {
      SymFrom(nodes, owning, 1)
    }

    /** A leaf that now holds count entries at this depth must split. */
    predicate SplitDue(count: int, depth: int)
    {
      count > maxSize && maxDepth > depth
    }

    /** An empty tree: one leaf, the root, at depth 1, centred on the origin and asleep. */
    constructor (size: Vec3, maxDepth: int, maxSize: int)
      ensures Valid() && Consistent()
      ensures nodes == [Node(1, Zero, size, true, [], None, [])] && owning == map[]
      ensures this.maxDepth == maxDepth && this.maxSize == maxSize
    {
      this.maxDepth := maxDepth;
      this.maxSize := maxSize;
      nodes := [Node(1, Zero, size, true, [], None, [])];
      owning := map[];
      new;
      assert NodeOk(nodes, 0, maxDepth);
    }

    // ------------------------------------------------- the owning lists

    /**
     * GameObject::GetNodeCount: the length of o's owning list, which counts
     * o's entries in the tree while the two agree.
     */
    function GetNodeCount(o: ObjId): (r: nat)
      reads this
      ensures Valid() && Consistent() ==> r == EntriesIn(nodes, o, |nodes|)
    {
      NodeCountIsEntries(nodes, owning, maxDepth, o);
      |Own(owning, o)|
    }

    /** GameObject::AddOwningNode: the node goes at the back of o's list. */
    method AddOwningNode(o: ObjId, n: NodeId)
      modifies this`owning
      ensures owning == old(owning)[o := Own(old(owning), o) + [n]]
    {
      owning := owning[o := Own(owning, o) + [n]];
    }

    /**
     * GameObject::RemoveOwningNode: every occurrence of the node leaves o's
     * list; ok is false (the source throws) when there was none.
     */
    method RemoveOwningNode(o: ObjId, n: NodeId) returns (ok: bool)
      modifies this`owning
      ensures owning == old(owning)[o := RemoveAll(Own(old(owning), o), n)]
      ensures ok <==> n in Own(old(owning), o)
    {
      var count := |Own(owning, o)|;
      owning := owning[o := RemoveAll(Own(owning, o), n)];
      ok := |Own(owning, o)| != count;
    }

    // ------------------------------------------------- node operations

    /** OctTreeNode::Delete: the first entry of o in node c is erased. */
    method NodeDelete(c: NodeId, o: ObjId)
      requires c < |nodes|
      modifies this`nodes
      ensures nodes == Erased(old(nodes), c, o)
    {
      var cs := nodes[c].contents;
      var i := 0;
      while i < |cs| && cs[i].obj != o
        invariant 0 <= i <= |cs|
        invariant forall j :: 0 <= j < i ==> cs[j].obj != o
      {
        i := i + 1;
      }
      if i < |cs| {
        RemoveFirstAt(cs, o, i);
        nodes := nodes[c := nodes[c].(contents := cs[..i] + cs[i + 1..])];
      } else {
        RemoveFirstAbsent(cs, o);
      }
    }

    /** OctTreeNode::Split: node c gets eight children, each covering one octant of its region. */
    method NodeSplit(c: NodeId)
      requires c < |nodes|
      modifies this`nodes
      ensures nodes == SplitNodes(old(nodes), c)
    {
      var n := nodes[c];
      var base := |nodes|;
      nodes := nodes[c := n.(children := Eight(base))]
        + [ChildNode(n, c, 0), ChildNode(n, c, 1), ChildNode(n, c, 2), ChildNode(n, c, 3),
           ChildNode(n, c, 4), ChildNode(n, c, 5), ChildNode(n, c, 6), ChildNode(n, c, 7)];
    }

    /**
     * OctTreeNode::Insert on node c. An entry whose box misses c's region is
     * dropped; an internal node passes it to all eight children; a leaf
     * keeps it, names itself in the object's owning list, and splits when it
     * now holds more than maxSize entries above the depth limit.
     */
    method NodeInsert(c: NodeId, e: Entry) returns (ok: bool)
      requires c < |nodes| && Good(nodes, owning, maxDepth, nodes[c].depth)
      modifies this`nodes, this`owning
      decreases maxDepth - nodes[c].depth, 4
      ensures ok ==> Good(nodes, owning, maxDepth, old(nodes[c].depth))
      ensures ok ==> Grown(old(nodes), old(owning), nodes, owning, old(nodes[c].depth))
      // an entry whose box misses the node's region is not stored anywhere below it
      ensures !Overlaps(e, old(nodes[c])) ==> ok && nodes == old(nodes) && owning == old(owning)
      // a leaf with room keeps the entry at the back and names itself in the object's list
      ensures Overlaps(e, old(nodes[c])) && IsLeaf(old(nodes[c]))
              && !SplitDue(|old(nodes[c].contents)| + 1, old(nodes[c].depth)) ==>
                ok && nodes == Pushed(old(nodes), c, e) && owning == Named(old(owning), e.obj, c)
      // a leaf that overflows hands all its entries to its new children and is left empty and asleep
      ensures ok && Overlaps(e, old(nodes[c])) && IsLeaf(old(nodes[c]))
              && SplitDue(|old(nodes[c].contents)| + 1, old(nodes[c].depth)) ==>
                nodes[c] == old(nodes[c]).(contents := [], sleep := true, children := Eight(|old(nodes)|))
      // the entry is held wherever the descent from c takes it, and whatever was held before still is
      ensures ok ==> Refined(old(nodes), nodes, maxDepth) && Reaches(nodes, maxDepth, c, e)
      // failing means a split met an object held twice
      ensures !ok ==> Stuck(nodes)
    {
      ok := true;
      if !Overlaps(e, nodes[c]) {
        RefinedRefl(nodes, maxDepth);
        return;
      }
      ghost var n0, own0 := nodes, owning;
      var d := nodes[c].depth;
      if !IsLeaf(nodes[c]) {
        assert NodeOk(nodes, c, maxDepth);
        GoodWeaken(nodes, owning, maxDepth, d);
        ok := InsertIntoChildren(c, e);
        if ok {
          GoodUp(n0, own0, nodes, owning, maxDepth, d);
          assert nodes[c] == n0[c];
        }
      } else {
        GoodPush(nodes, owning, maxDepth, c, e);
        RefinedPush(nodes, maxDepth, c, e);
        nodes := nodes[c := nodes[c].(contents := nodes[c].contents + [e], sleep := nodes[c].sleep && e.slept)];
        AddOwningNode(e.obj, c);
        if |nodes[c].contents| > maxSize && maxDepth > nodes[c].depth {
          ghost var n1, own1 := nodes, owning;
          ok := NodeRedistribute(c);
          if ok {
            GrownTrans(n0, own0, n1, own1, nodes, owning, d, d);
            RefinedTrans(n0, n1, nodes, maxDepth);
            assert RefinedAt(n1, nodes, maxDepth, c) && e in n1[c].contents;
          }
        }
      }
    }

    /** The loop `for i < 8: children[i].Insert(...)` of OctTreeNode::Insert, used by both of its branches. */
    method InsertIntoChildren(c: NodeId, e: Entry) returns (ok: bool)
      requires c < |nodes| && |nodes[c].children| == 8
      requires Good(nodes, owning, maxDepth, nodes[c].depth + 1)
      modifies this`nodes, this`owning
      decreases maxDepth - nodes[c].depth, 0
      ensures ok ==> Good(nodes, owning, maxDepth, old(nodes[c].depth) + 1)
      ensures ok ==> Grown(old(nodes), old(owning), nodes, owning, old(nodes[c].depth) + 1)
      ensures ok ==> Refined(old(nodes), nodes, maxDepth) && ReachesKids(nodes, maxDepth, c, e, 8)
      ensures !ok ==> Stuck(nodes)
    {
      ghost var n0, own0 := nodes, owning;
      var d := nodes[c].depth;
      assert NodeOk(nodes, c, maxDepth);
      RefinedRefl(nodes, maxDepth);
      ok := true;
      var j := 0;
      while j < 8
        invariant 0 <= j <= 8
        invariant Good(nodes, owning, maxDepth, d + 1) && Grown(n0, own0, nodes, owning, d + 1)
        invariant c < |nodes| && nodes[c] == n0[c]
        invariant Refined(n0, nodes, maxDepth) && ReachesKids(nodes, maxDepth, c, e, j)
      {
        var child := nodes[c].children[j];
        assert NodeOk(nodes, c, maxDepth);
        assert NodeOk(nodes, child, maxDepth);
        ghost var n1, own1 := nodes, owning;
        ok := NodeInsert(child, e);
        if !ok {
          return;
        }
        GrownTrans(n0, own0, n1, own1, nodes, owning, d + 1, d + 1);
        ReachesKidsKept(n1, nodes, maxDepth, c, e, j);
        ReachesKidsMore(nodes, maxDepth, c, e, j, child);
        RefinedTrans(n0, n1, nodes, maxDepth);
        j := j + 1;
      }
    }

    /**
     * One pass of the re-insertion loop of OctTreeNode::Insert: the entry's
     * object stops naming c (RemoveOwningNode, which fails when c is not in
     * its list), then the entry goes into all eight children of c.
     */
    method NodeReinsert(c: NodeId, e: Entry) returns (ok: bool)
      requires c < |nodes| && |nodes[c].children| == 8
      requires Good(nodes, owning, maxDepth, nodes[c].depth + 1) && SymFromBut(nodes, owning, nodes[c].depth, c)
      modifies this`nodes, this`owning
      decreases maxDepth - nodes[c].depth, 1
      ensures ok ==> Reinserted(old(nodes), old(owning), nodes, owning, maxDepth, c, e)
      ensures ok ==> Refined(old(nodes), nodes, maxDepth) && ReachesKids(nodes, maxDepth, c, e, 8)
      ensures !ok ==> (nodes == old(nodes) && c !in Own(old(owning), e.obj)) || Stuck(nodes)
    {
      ghost var n0, own0 := nodes, owning;
      var d := nodes[c].depth;
      ok := RemoveOwningNode(e.obj, c);
      if !ok {
        return;
      }
      ghost var own1 := owning;
      Unnamed(n0, own0, own1, maxDepth, c, e.obj);
      ok := InsertIntoChildren(c, e);
      if !ok {
        return;
      }
      SymFromUp(n0, own1, nodes, owning, d, d + 1, c);
      OwnKeptTrans(n0, n0, own0, own1, owning, d, d + 1);
    }

    /**
     * The split branch of OctTreeNode::Insert on leaf c: split, then for each
     * entry remove c from the object's owning list and insert the entry into
     * all eight children; finally empty c and mark it asleep. ok is false
     * where RemoveOwningNode throws: when the leaf held an object twice.
     */
    method NodeRedistribute(c: NodeId) returns (ok: bool)
      requires c < |nodes| && Good(nodes, owning, maxDepth, nodes[c].depth)
      requires IsLeaf(nodes[c]) && nodes[c].depth < maxDepth
      modifies this`nodes, this`owning
      decreases maxDepth - nodes[c].depth, 3
      ensures ok ==> Good(nodes, owning, maxDepth, old(nodes[c].depth))
      ensures ok ==> Grown(old(nodes), old(owning), nodes, owning, old(nodes[c].depth))
      ensures ok ==> nodes[c] == old(nodes[c]).(contents := [], sleep := true, children := Eight(|old(nodes)|))
      // the split only completes when no object had two entries in the leaf
      ensures ok ==> NoDup(Objs(old(nodes[c].contents)))
      // every entry the leaf held reaches all its new children, and nothing held elsewhere is lost
      ensures ok ==> Refined(old(nodes), nodes, maxDepth)
      ensures !ok ==> Stuck(nodes)
    {
      ghost var n0, own0 := nodes, owning;
      RedistributingStart(nodes, owning, maxDepth, c);
      NodeSplit(c);
      ghost var n1 := nodes;
      var es := nodes[c].contents;
      ok := true;
      var k := 0;
      RefinedRefl(nodes, maxDepth);
      while k < |es|
        invariant Redistributing(n1, own0, nodes, owning, maxDepth, c, es, k)
        invariant Spread(n1, nodes, maxDepth, c, es, k)
      {
        ok := RedistributeEntry(c, es, k, n1, own0);
        if !ok {
          return;
        }
        k := k + 1;
      }
      RedistributingEnd(n0, own0, nodes, owning, maxDepth, c);
      RefinedRedistributed(n0, nodes, maxDepth, c);
      nodes := nodes[c := nodes[c].(contents := [], sleep := true)];
    }

    /** One pass of the re-insertion loop of the split branch: entry k of the former contents es goes to the children. */
    method RedistributeEntry(c: NodeId, es: seq<Entry>, k: int, ghost n1: seq<Node>, ghost own1: map<ObjId, seq<NodeId>>)
      returns (ok: bool)
      requires Redistributing(n1, own1, nodes, owning, maxDepth, c, es, k) && k < |es|
      requires n1[c].contents == es && |n1[c].children| == 8
      requires Spread(n1, nodes, maxDepth, c, es, k)
      modifies this`nodes, this`owning
      decreases maxDepth - nodes[c].depth, 2
      ensures ok ==> Redistributing(n1, own1, nodes, owning, maxDepth, c, es, k + 1)
      ensures ok ==> Spread(n1, nodes, maxDepth, c, es, k + 1)
      ensures !ok ==> Stuck(nodes)
    {
      ghost var n2, own2 := nodes, owning;
      ok := NodeReinsert(c, es[k]);
      if !ok {
        if !Stuck(nodes) {
          RedistributingStuck(n1, own1, nodes, own2, maxDepth, c, es, k);
        }
        return;
      }
      RedistributingStep(n1, own1, n2, own2, nodes, owning, maxDepth, c, es, k);
      SpreadStep(n1, n2, nodes, maxDepth, c, es, k);
    }

    /**
     * The inner block of OctTreeNode::Update once o's first entry, at index i
     * of c, is found: the entry is erased and o is inserted, awake, at the
     * nearest of c and its ancestors that fully contains its box.
     */
    method NodeRelocate(c: NodeId, o: ObjId, i: nat, pos: Vec3, size: Vec3) returns (ok: bool)
      requires Valid() && c < |nodes| && SymBut(nodes, owning, o, c)
      requires i < |nodes[c].contents| && nodes[c].contents[i].obj == o
      requires forall j :: 0 <= j < i ==> nodes[c].contents[j].obj != o
      modifies this`nodes, this`owning
      ensures FirstContaining(old(nodes), maxDepth, c, pos, size).None? ==>
                ok && nodes == Erased(old(nodes), c, o) && owning == old(owning)
      ensures FirstContaining(old(nodes), maxDepth, c, pos, size).Some? && ok ==>
                Grown(Erased(old(nodes), c, o), old(owning), nodes, owning,
                      old(nodes)[FirstContaining(old(nodes), maxDepth, c, pos, size).value].depth)
      ensures FirstContaining(old(nodes), maxDepth, c, pos, size).Some? ==>
                var t := FirstContaining(old(nodes), maxDepth, c, pos, size).value;
                var e := Entry(o, pos, size, false);
                Overlaps(e, old(nodes)[t]) && IsLeaf(old(nodes)[t])
                && !SplitDue(|Erased(old(nodes), c, o)[t].contents| + 1, old(nodes)[t].depth) ==>
                  ok && nodes == Pushed(Erased(old(nodes), c, o), t, e) && owning == Named(old(owning), o, t)
      // the entry, awake, is held wherever the descent from the receiving node takes it; nothing else is lost
      ensures FirstContaining(old(nodes), maxDepth, c, pos, size).Some? && ok ==>
                Refined(Erased(old(nodes), c, o), nodes, maxDepth)
                && Reaches(nodes, maxDepth, FirstContaining(old(nodes), maxDepth, c, pos, size).value, Entry(o, pos, size, false))
      ensures !ok ==> Stuck(nodes)
      ensures ok ==> Valid() && Consistent()
    {
      ok := true;
      ghost var own0 := owning;
      EraseEntry(c, o, i, pos, size);
      var t := FindContaining(c, pos, size);
      if t.Some? {
        var target := t.value;
        ghost var n1 := nodes;
        assert NodeOk(nodes, target, maxDepth);
        SymFromWeaken(nodes, owning, 1, nodes[target].depth);
        ok := NodeInsert(target, Entry(o, pos, size, false));
        if ok {
          SymFromUp(n1, own0, nodes, owning, 1, n1[target].depth, -1);
        }
      }
    }

    /** The erase of OctTreeNode::Update: o's first entry, at index i of c, leaves c, and c is no longer named twice. */
    method EraseEntry(c: NodeId, o: ObjId, i: nat, ghost pos: Vec3, ghost size: Vec3)
      requires Valid() && c < |nodes| && SymBut(nodes, owning, o, c)
      requires i < |nodes[c].contents| && nodes[c].contents[i].obj == o
      requires forall j :: 0 <= j < i ==> nodes[c].contents[j].obj != o
      modifies this`nodes
      ensures nodes == Erased(old(nodes), c, o)
      ensures Valid() && SymFrom(nodes, owning, 1)
      ensures FirstContaining(nodes, maxDepth, c, pos, size) == FirstContaining(old(nodes), maxDepth, c, pos, size)
    {
      var cs := nodes[c].contents;
      ObjsAt(cs, i);
      RemoveFirstAt(cs, o, i);
      ghost var n0 := nodes;
      nodes := nodes[c := nodes[c].(contents := cs[..i] + cs[i + 1..])];
      assert nodes == Erased(n0, c, o);
      ErasedValid(n0, maxDepth, c, o);
      SymButErase(n0, owning, o, c);
      FirstContainingErased(n0, maxDepth, c, o, c, pos, size);
    }

    /** The walk of OctTreeNode::Update from a node up its parents to the first one fully containing the box. */
    method FindContaining(c: NodeId, pos: Vec3, size: Vec3) returns (t: Option<NodeId>)
      requires Valid() && c < |nodes|
      ensures t == FirstContaining(nodes, maxDepth, c, pos, size)
    {
      t := Some(c);
      while t.Some? && !AABBFullyWithin(pos, nodes[t.value].position, size, nodes[t.value].size)
        invariant t.Some? ==> t.value < |nodes| && FirstContaining(nodes, maxDepth, c, pos, size) == FirstContaining(nodes, maxDepth, t.value, pos, size)
        invariant t.None? ==> FirstContaining(nodes, maxDepth, c, pos, size).None?
        decreases if t.Some? then nodes[t.value].depth else 0
      {
        assert NodeOk(nodes, t.value, maxDepth);
        t := nodes[t.value].parent;
      }
    }

    /**
     * OctTreeNode::Update on node c, for object o now at pos with half-size
     * size. Still inside c: c is named in o's list again. Otherwise o's
     * first entry in c is erased and o is inserted, awake, at the nearest of
     * c and its ancestors that fully contains its box; when none does, o is
     * left in no node. Without an entry of o in c nothing happens.
     *
     * The caller (NotifyOwningNodes) has just taken c off o's list, so c
     * holds one entry of o more than o's list names it (SymBut); the other
     * accepted state, agreement with no entry of o in c, is the no-op.
     */
    method NodeUpdate(c: NodeId, o: ObjId, pos: Vec3, size: Vec3) returns (ok: bool)
      requires Valid() && c < |nodes|
      requires SymBut(nodes, owning, o, c) || (Consistent() && o !in Objs(nodes[c].contents))
      modifies this`nodes, this`owning
      ensures AABBFullyWithin(pos, old(nodes[c].position), size, old(nodes[c].size)) ==>
                ok && nodes == old(nodes) && owning == Named(old(owning), o, c)
      ensures !AABBFullyWithin(pos, old(nodes[c].position), size, old(nodes[c].size)) && o !in Objs(old(nodes[c].contents)) ==>
                ok && nodes == old(nodes) && owning == old(owning)
      // left the whole tree: the entry is gone and nothing else changes
      ensures !AABBFullyWithin(pos, old(nodes[c].position), size, old(nodes[c].size)) && o in Objs(old(nodes[c].contents))
              && FirstContaining(old(nodes), maxDepth, c, pos, size).None? ==>
                ok && nodes == Erased(old(nodes), c, o) && owning == old(owning)
      // moved up: only the subtree of the receiving node changes
      ensures !AABBFullyWithin(pos, old(nodes[c].position), size, old(nodes[c].size)) && o in Objs(old(nodes[c].contents))
              && FirstContaining(old(nodes), maxDepth, c, pos, size).Some? && ok ==>
                Grown(Erased(old(nodes), c, o), old(owning), nodes, owning,
                      old(nodes)[FirstContaining(old(nodes), maxDepth, c, pos, size).value].depth)
      // moved up into a leaf with room: the entry, awake, at its back
      ensures !AABBFullyWithin(pos, old(nodes[c].position), size, old(nodes[c].size)) && o in Objs(old(nodes[c].contents))
              && FirstContaining(old(nodes), maxDepth, c, pos, size).Some? ==>
                var t := FirstContaining(old(nodes), maxDepth, c, pos, size).value;
                var e := Entry(o, pos, size, false);
                Overlaps(e, old(nodes)[t]) && IsLeaf(old(nodes)[t])
                && !SplitDue(|Erased(old(nodes), c, o)[t].contents| + 1, old(nodes)[t].depth) ==>
                  ok && nodes == Pushed(Erased(old(nodes), c, o), t, e) && owning == Named(old(owning), o, t)
      // moved up: the entry, awake, is held wherever the descent from the receiving node takes it
      ensures !AABBFullyWithin(pos, old(nodes[c].position), size, old(nodes[c].size)) && o in Objs(old(nodes[c].contents))
              && FirstContaining(old(nodes), maxDepth, c, pos, size).Some? && ok ==>
                Refined(Erased(old(nodes), c, o), nodes, maxDepth)
                && Reaches(nodes, maxDepth, FirstContaining(old(nodes), maxDepth, c, pos, size).value, Entry(o, pos, size, false))
      ensures !ok ==> Stuck(nodes)
      ensures old(SymBut(nodes, owning, o, c)) && ok ==> Valid() && Consistent()
    {
      ok := true;
      if AABBFullyWithin(pos, nodes[c].position, size, nodes[c].size) {
        if SymBut(nodes, owning, o, c) {
          SymButName(nodes, owning, o, c);
        }
        AddOwningNode(o, c);
        return;
      }
      var cs := nodes[c].contents;
      var i := FindEntry(cs, o);
      if i == |cs| {
        ObjsAbsent(cs, o);
        return;
      }
      ObjsAt(cs, i);
      ok := NodeRelocate(c, o, i, pos, size);
    }

    /**
     * GameObject::NotifyOwningNodes for object o, now at pos with half-size
     * size: o's entry is deleted from every owning node but the first, the
     * list is emptied, and the first node updates o. An object in no node
     * is left alone.
     */
    method NotifyOwningNodes(o: ObjId, pos: Vec3, size: Vec3) returns (ok: bool)
      requires Valid() && Consistent()
      modifies this`nodes, this`owning
      ensures Own(old(owning), o) == [] ==> ok && nodes == old(nodes) && owning == old(owning)
      ensures ok ==> Valid() && Consistent()
      // an object still inside its first owning node ends up held and named by that node alone
      ensures Own(old(owning), o) != []
              && AABBFullyWithin(pos, old(nodes)[Own(old(owning), o)[0]].position, size, old(nodes)[Own(old(owning), o)[0]].size) ==>
                ok && nodes == DeleteAll(old(nodes), Own(old(owning), o)[1..], o)
                && owning == old(owning)[o := [Own(old(owning), o)[0]]]
      ensures !ok ==> Stuck(nodes)
    {
      ok := true;
      if |Own(owning, o)| == 0 {
        return;
      }
      var front := DetachAllButFirst(o);
      ok := NodeUpdate(front, o, pos, size);
    }

    /**
     * The loop of NotifyOwningNodes: every owning node of o but the front one
     * deletes o, the last first, and the list is emptied. The front node,
     * returned, still holds the entry the list no longer names.
     */
    method DetachAllButFirst(o: ObjId) returns (front: NodeId)
      requires Valid() && Consistent() && Own(owning, o) != []
      modifies this`nodes, this`owning
      ensures front == Own(old(owning), o)[0] && front < |nodes| && |nodes| == |old(nodes)|
      ensures nodes == DeleteAll(old(nodes), Own(old(owning), o)[1..], o)
      ensures owning == old(owning)[o := []]
      ensures Named(owning, o, front) == old(owning)[o := [front]]
      ensures nodes[front].position == old(nodes)[front].position && nodes[front].size == old(nodes)[front].size
      ensures Valid() && SymBut(nodes, owning, o, front)
    {
      ghost var n0, own0, l0 := nodes, owning, Own(owning, o);
      PopUntil(o, 1);
      PoppedAllButFirst(n0, own0, l0, nodes, owning, maxDepth, o);
      ghost var own1 := owning;
      front := Own(owning, o)[0];
      assert Own(own1, o) == [front] && Own(own1, o)[1..] == [];
      owning := owning[o := Own(owning, o)[1..]];
    }

    /**
     * The rounds of the owning-list loops: o's entry is deleted from the last
     * node on its list and the node popped, until keep nodes are left.
     */
    method PopUntil(o: ObjId, keep: nat)
      requires Valid() && keep <= |Own(owning, o)|
      modifies this`nodes, this`owning
      ensures Popped(old(nodes), old(owning), Own(old(owning), o), nodes, owning, maxDepth, o, |Own(old(owning), o)| - keep)
      ensures old(Consistent()) ==> Consistent()
    {
      ghost var n0, own0, l0 := nodes, owning, Own(owning, o);
      ghost var consistent := Consistent();
      PoppedStart(nodes, owning, maxDepth, o);
      var rounds := |Own(owning, o)| - keep;
      var i := 0;
      while i < rounds
        invariant 0 <= i <= rounds
        invariant Popped(n0, own0, l0, nodes, owning, maxDepth, o, i)
        invariant consistent ==> Consistent()
      {
        PopLast(o, n0, own0, l0, i);
        i := i + 1;
      }
    }

    /** One round of the owning-list loops: o's entry is deleted from the last node on its list, and the node popped. */
    method PopLast(o: ObjId, ghost n0: seq<Node>, ghost own0: map<ObjId, seq<NodeId>>, ghost l0: seq<NodeId>, ghost j: int)
      requires Popped(n0, own0, l0, nodes, owning, maxDepth, o, j) && j < |l0|
      modifies this`nodes, this`owning
      ensures Popped(n0, own0, l0, nodes, owning, maxDepth, o, j + 1)
      ensures old(Consistent()) ==> Consistent()
    {
      PoppedBack(n0, own0, l0, nodes, owning, maxDepth, o, j);
      ghost var nodes1, own1 := nodes, owning;
      var l := Own(owning, o);
      NodeDelete(l[|l| - 1], o);
      owning := owning[o := l[..|l| - 1]];
      PoppedStep(n0, own0, l0, nodes1, own1, nodes, owning, maxDepth, o, j);
      if SymFrom(nodes1, own1, 1) {
        PopKeepsSym(nodes1, own1, maxDepth, o);
      }
    }

    /** GameObject::RemoveFromTree: o's entry is deleted from each of its owning nodes, the last first, and the list emptied. */
    method RemoveFromTree(o: ObjId)
      requires Valid()
      modifies this`nodes, this`owning
      ensures nodes == DeleteAll(old(nodes), Own(old(owning), o), o)
      ensures owning == if Own(old(owning), o) == [] then old(owning) else old(owning)[o := []]
      ensures Valid()
      // with the tree consistent before, it stays so and no node holds o any more
      ensures old(Consistent()) ==> Consistent() && forall m :: 0 <= m < |nodes| ==> o !in Objs(nodes[m].contents)
    {
      ghost var n0, own0, l0 := nodes, owning, Own(owning, o);
      PopUntil(o, 0);
      PoppedAll(n0, own0, l0, nodes, owning, maxDepth, o);
    }

    /** OctTree::Insert: the entry goes to the root (the source's default for slept is false). */
    method Insert(o: ObjId, pos: Vec3, size: Vec3, slept: bool) returns (ok: bool)
      requires Valid() && Consistent()
      modifies this`nodes, this`owning
      ensures ok ==> Valid() && Consistent()
      ensures !Overlaps(Entry(o, pos, size, slept), old(nodes[0])) ==> ok && nodes == old(nodes) && owning == old(owning)
      ensures Overlaps(Entry(o, pos, size, slept), old(nodes[0])) && IsLeaf(old(nodes[0]))
              && !SplitDue(|old(nodes[0].contents)| + 1, 1) ==>
                ok && nodes == Pushed(old(nodes), 0, Entry(o, pos, size, slept)) && owning == Named(old(owning), o, 0)
      // the entry is held wherever the descent from the root takes it, and whatever was held before still is
      ensures ok ==> Refined(old(nodes), nodes, maxDepth) && Reaches(nodes, maxDepth, 0, Entry(o, pos, size, slept))
      ensures !ok ==> Stuck(nodes)
    {
      ok := NodeInsert(0, Entry(o, pos, size, slept));
    }

    // ------------------------------------------------- walks of the whole tree

    /**
     * OctTreeNode::OperateOnContents(func, ignoreSleep) on node c: the nodes
     * whose contents func receives, in call order. What func does with them
     * is the caller's (PhysicsSystem::BroadPhase).
     */
    method NodeOperateOnContents(c: NodeId, ignoreSleep: bool) returns (visited: seq<NodeId>)
      requires Valid() && c < |nodes|
      ensures visited == Visits(nodes, maxDepth, c, ignoreSleep)
      decreases maxDepth - nodes[c].depth
    {
      assert NodeOk(nodes, c, maxDepth);
      if |nodes[c].children| == 8 {
        visited := [];
        var i := 0;
        while i < 8
          invariant 0 <= i <= 8
          invariant visited == VisitKids(nodes, maxDepth, c, i)
        {
          assert NodeOk(nodes, nodes[c].children[i], maxDepth);
          var v := NodeOperateOnContents(nodes[c].children[i], false);
          visited := visited + v;
          i := i + 1;
        }
      } else if nodes[c].contents != [] && (!ignoreSleep || !nodes[c].sleep) {
        visited := [c];
      } else {
        visited := [];
      }
    }

    /**
     * OctTree::OperateOnContents: the root's walk with the flag at its
     * default. Every leaf holding entries is handed to func exactly once,
     * whether it is asleep or not.
     */
    method OperateOnContents() returns (visited: seq<NodeId>)
      requires Valid()
      ensures NoDup(visited)
      ensures forall m :: m in visited <==> Handed(nodes, m)
    {
      visited := NodeOperateOnContents(0, false);
      VisitsAll(nodes, maxDepth);
    }

    /** OctTreeNode::Clear on node c: every leaf of its subtree that holds entries is emptied and put to sleep. */
    method NodeClear(c: NodeId)
      requires Valid() && c < |nodes|
      modifies this`nodes
      ensures Valid() && SameShape(old(nodes), nodes)
      ensures ClearedUnder(old(nodes), nodes, maxDepth, c)
      decreases maxDepth - nodes[c].depth
    {
      assert NodeOk(nodes, c, maxDepth);
      if |nodes[c].children| == 8 {
        ghost var n0 := nodes;
        ClearedKidsStart(n0, maxDepth, c);
        var i := 0;
        while i < 8
          invariant 0 <= i <= 8 && Valid() && SameShape(n0, nodes)
          invariant ClearedKids(n0, nodes, maxDepth, c, i)
        {
          ghost var b := nodes;
          assert nodes[c] == n0[c].(contents := nodes[c].contents, sleep := nodes[c].sleep);
          assert NodeOk(n0, n0[c].children[i], maxDepth);
          NodeClear(nodes[c].children[i]);
          ClearedKidsStep(n0, b, nodes, maxDepth, c, i);
          SameShapeTrans(n0, b, nodes);
          i := i + 1;
        }
        ClearedKidsEnd(n0, nodes, maxDepth, c);
      } else if nodes[c].contents != [] {
        ClearedLeaf(nodes, maxDepth, c);
        StructuredSetContents(nodes, maxDepth, c, [], true);
        StructuredSetContentsKeepsLeavesOnly(nodes, c, [], true);
        nodes := nodes[c := nodes[c].(contents := [], sleep := true)];
      } else {
        ClearedLeaf(nodes, maxDepth, c);
        assert nodes[c := Wiped(nodes[c])] == nodes;
      }
    }

    /**
     * OctTree::Clear: every leaf that held entries is emptied and asleep, and
     * the nodes and the owning lists are kept.
     */
    method Clear()
      requires Valid()
      modifies this`nodes
      ensures Valid()
      ensures |nodes| == |old(nodes)| && forall m :: 0 <= m < |nodes| ==> nodes[m] == Wiped(old(nodes)[m])
      ensures forall m :: 0 <= m < |nodes| && IsLeaf(nodes[m]) ==> nodes[m].contents == []
    {
      ghost var n0 := nodes;
      NodeClear(0);
      ClearedAll(n0, nodes, maxDepth);
    }
  }

  /** The scan of OctTreeNode::Update for o's first entry: its index, or the length when there is none. */
  method FindEntry(cs: seq<Entry>, o: ObjId) returns (i: nat)
    ensures i <= |cs| && (i < |cs| ==> cs[i].obj == o)
    ensures forall j :: 0 <= j < i ==> cs[j].obj != o
  {
    i := 0;
    while i < |cs| && cs[i].obj != o
      invariant 0 <= i <= |cs|
      invariant forall j :: 0 <= j < i ==> cs[j].obj != o
    {
      i := i + 1;
    }
  }
}
