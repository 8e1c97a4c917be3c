/**
 * The octree as a value: an arena of nodes addressed by NodeId, the root at
 * index 0, each node with its region (centre and half-size), its depth, its
 * parent and its eight children (or none), and, in a leaf, the entries of the
 * objects whose boxes overlap it.
 *
 * Beside the nodes lives the back-reference map `owning`: for each object,
 * its list of owning nodes (GameObject::owningNodes). The tree is only
 * consistent when the two agree: an object appears in a node's contents
 * exactly as many times as that node appears in the object's owning list.
 */
module OctTreeShape {
  import opened Common
  import opened Collision

  /** OctTreeEntry: an object with the box it had when it was inserted, and whether it was asleep. */
  datatype Entry = Entry(obj: ObjId, pos: Vec3, size: Vec3, slept: bool)

  /** OctTreeNode, with its pointers replaced by arena indices. */
  datatype Node = Node(depth: int, position: Vec3, size: Vec3, sleep: bool,
                       contents: seq<Entry>, parent: Option<NodeId>, children: seq<NodeId>)

  /** The objects of a contents list, in order. */
  function Objs(es: seq<Entry>): (r: seq<ObjId>)
    ensures |r| == |es|
  {
    if es == [] then [] else [es[0].obj] + Objs(es[1..])
  }

  lemma {:induction false} ObjsAt(es: seq<Entry>, i: int)
    requires 0 <= i < |es|
    ensures Objs(es)[i] == es[i].obj
  {
    if i > 0 {
      ObjsAt(es[1..], i - 1);
    }
  }

  lemma {:induction false} ObjsAppend(a: seq<Entry>, b: seq<Entry>)
    ensures Objs(a + b) == Objs(a) + Objs(b)
  {
    if a == [] {
      assert a + b == b;
    } else {
      assert (a + b)[1..] == a[1..] + b;
      ObjsAppend(a[1..], b);
      assert Objs(a + b) == [a[0].obj] + Objs(a[1..] + b);
    }
  }

  /** The objects of a prefix one entry longer. */
  lemma ObjsPrefixStep(es: seq<Entry>, k: nat)
    requires k < |es|
    ensures Objs(es[..k + 1]) == Objs(es[..k]) + [es[k].obj]
  {
    assert es[..k + 1] == es[..k] + [es[k]];
    ObjsAppend(es[..k], [es[k]]);
  }

  /** A list with no entry of o at any index does not hold o. */
  lemma {:induction false} ObjsAbsent(es: seq<Entry>, o: ObjId)
    requires forall j :: 0 <= j < |es| ==> es[j].obj != o
    ensures o !in Objs(es)
  {
    if es != [] {
      ObjsAbsent(es[1..], o);
    }
  }

  /** OctTreeNode::Delete on a contents list: the first entry of o goes, the others keep their order. */
  function RemoveFirst(es: seq<Entry>, o: ObjId): seq<Entry>
  {
    if es == [] then []
    else if es[0].obj == o then es[1..]
    else [es[0]] + RemoveFirst(es[1..], o)
  }

  /** What RemoveFirst keeps was in the list before. */
  lemma {:induction false} RemoveFirstSubset(es: seq<Entry>, o: ObjId)
    ensures multiset(RemoveFirst(es, o)) <= multiset(es)
  {
    if es != [] {
      assert es == [es[0]] + es[1..];
      RemoveFirstSubset(es[1..], o);
    }
  }

  /** RemoveFirst takes away one entry of o when there is one, and no entry of any other object. */
  lemma {:induction false} RemoveFirstCount(es: seq<Entry>, o: ObjId, p: ObjId)
    ensures CountIn(RemoveFirst(es, o), p) == CountIn(es, p) - (if p == o && o in Objs(es) then 1 else 0)
  {
    if es != [] {
      assert es == [es[0]] + es[1..];
      CountInAppend([es[0]], es[1..], p);
      if es[0].obj != o {
        RemoveFirstCount(es[1..], o, p);
        CountInAppend([es[0]], RemoveFirst(es[1..], o), p);
        assert Objs(es) == [es[0].obj] + Objs(es[1..]);
      }
    }
  }

  /** Erasing at the first position that holds o is RemoveFirst. */
  lemma {:induction false} RemoveFirstAt(es: seq<Entry>, o: ObjId, i: nat)
    requires i < |es| && es[i].obj == o
    requires forall j :: 0 <= j < i ==> es[j].obj != o
    ensures RemoveFirst(es, o) == es[..i] + es[i + 1..]
  {
    if i == 0 {
      assert es[..0] + es[1..] == es[1..];
    } else {
      assert es[0].obj != o;
      var t := es[1..];
      assert forall j :: 0 <= j < i - 1 ==> t[j].obj != o;
      RemoveFirstAt(t, o, i - 1);
      assert RemoveFirst(es, o) == [es[0]] + RemoveFirst(t, o);
      assert t[..i - 1] + t[i..] == es[1..i] + es[i + 1..];
      assert es[..i] == [es[0]] + es[1..i];
    }
  }

  /** A list with no entry of o is left as it is. */
  lemma {:induction false} RemoveFirstAbsent(es: seq<Entry>, o: ObjId)
    requires forall j :: 0 <= j < |es| ==> es[j].obj != o
    ensures RemoveFirst(es, o) == es
  {
    if es != [] {
      RemoveFirstAbsent(es[1..], o);
      assert es == [es[0]] + es[1..];
    }
  }

  /** How many entries of o a contents list holds. */
  function CountIn(es: seq<Entry>, o: ObjId): nat
  {
    multiset(Objs(es))[o]
  }

  /** The owning list of o (empty for an object never inserted). */
  function Own(own: map<ObjId, seq<NodeId>>, o: ObjId): seq<NodeId>
  {
    if o in own then own[o] else []
  }

  /** How many times node m appears in o's owning list. */
  function Refs(own: map<ObjId, seq<NodeId>>, o: ObjId, m: NodeId): nat
  {
    multiset(Own(own, o))[m]
  }

  /** The test Insert applies before storing an entry in, or descending into, a node. */
  predicate Overlaps(e: Entry, n: Node)
  {
    AABBTest(e.pos, n.position, e.size, n.size)
  }

  predicate IsLeaf(n: Node) { |n.children| == 0 }

  /** An internal node that still holds entries: only ever seen while a leaf is being split. */
  predicate Mixed(n: Node) { |n.children| == 8 && n.contents != [] }

  /** The links and the placement of node i agree with the rest of the arena. */
  ghost predicate NodeOk(nodes: seq<Node>, i: int, maxDepth: int)
    requires 0 <= i < |nodes|
  {
    var n := nodes[i];
    n.depth >= 1
    && (n.parent.None? <==> i == 0)
    && (n.parent.Some? ==>
          n.parent.value < |nodes|
          && nodes[n.parent.value].depth == n.depth - 1
          && i in nodes[n.parent.value].children)
    && (|n.children| == 0 || |n.children| == 8)
    && (|n.children| == 8 ==>
          n.depth < maxDepth
          && NoDup(n.children)
          && forall k :: 0 <= k < 8 ==> n.children[k] < |nodes| && nodes[n.children[k]].parent == Some(i))
    && (forall j :: 0 <= j < |n.contents| ==> Overlaps(n.contents[j], n))
  }

  /**
   * The arena is a tree rooted at 0 with depth 1 at the root, every child one
   * level below its parent, eight children or none, no split at maxDepth, and
   * every entry overlapping the node that holds it.
   */
  ghost predicate Structured(nodes: seq<Node>, maxDepth: int)
  {
    |nodes| >= 1
    && nodes[0].depth == 1
    && forall i :: 0 <= i < |nodes| ==> NodeOk(nodes, i, maxDepth)
  }

  /** Every owning list names nodes of the arena. */
  ghost predicate InRange(nodes: seq<Node>, own: map<ObjId, seq<NodeId>>)
  {
    forall o, k :: o in own && 0 <= k < |own[o]| ==> own[o][k] < |nodes|
  }

  /** Entries are only held by leaves. */
  ghost predicate LeavesOnly(nodes: seq<Node>)
  {
    forall m :: 0 <= m < |nodes| ==> !Mixed(nodes[m])
  }

  /** Object o and node m agree: as many entries of o in m as references to m in o's owning list. */
  ghost predicate Balanced(nodes: seq<Node>, own: map<ObjId, seq<NodeId>>, o: ObjId, m: NodeId)
    requires m < |nodes|
  {
    Refs(own, o, m) == CountIn(nodes[m].contents, o)
  }

  /** Every object agrees with every node of depth d or more, node x perhaps excepted. */
  ghost predicate SymFromBut(nodes: seq<Node>, own: map<ObjId, seq<NodeId>>, d: int, x: int)
  {
    forall o: ObjId, m: NodeId :: m < |nodes| && nodes[m].depth >= d && m != x ==> Balanced(nodes, own, o, m)
  }

  /** Every object agrees with every node of depth d or more. */
  ghost predicate SymFrom(nodes: seq<Node>, own: map<ObjId, seq<NodeId>>, d: int)
  {
    SymFromBut(nodes, own, d, -1)
  }

  /** As SymFrom(1), except that o has one entry in c more than c has references in o's list. */
  ghost predicate SymBut(nodes: seq<Node>, own: map<ObjId, seq<NodeId>>, o: ObjId, c: NodeId)
  {
    c < |nodes|
    && (forall p: ObjId, m: NodeId :: m < |nodes| && (p != o || m != c) ==> Balanced(nodes, own, p, m))
    && CountIn(nodes[c].contents, o) == Refs(own, o, c) + 1
  }

  /**
   * b grew from a below depth d: nothing removed, depths kept, nodes added
   * only below depth d, and every node above depth d left as it was.
   */
  ghost predicate Extends(a: seq<Node>, b: seq<Node>, d: int)
  {
    |a| <= |b|
    && (forall m :: 0 <= m < |a| ==> b[m].depth == a[m].depth)
    && (forall m :: |a| <= m < |b| ==> b[m].depth > d)
    && (forall m :: 0 <= m < |a| && a[m].depth < d ==> b[m] == a[m])
  }

  /** The owning lists refer to every node above depth d as often as before. */
  ghost predicate OwnKept(a: seq<Node>, ownA: map<ObjId, seq<NodeId>>, ownB: map<ObjId, seq<NodeId>>, d: int)
  {
    forall p: ObjId, m: NodeId :: m < |a| && a[m].depth < d ==> Refs(ownB, p, m) == Refs(ownA, p, m)
  }

  /** No node of b holds entries while having children unless it already did so in a. */
  ghost predicate NoNewMixed(a: seq<Node>, b: seq<Node>)
  {
    forall m :: 0 <= m < |b| && Mixed(b[m]) ==> m < |a| && Mixed(a[m])
  }

  // ---------------------------------------------------------------- splitting

  /** The sign pattern of child k, in the order Split creates the children. */
  function Octant(k: int): Vec3
  {
    Vec3(if k % 2 == 0 then -1.0 else 1.0,
         if k < 4 then 1.0 else -1.0,
         if k % 4 < 2 then 1.0 else -1.0)
  }

  /** Child k of node p (at arena index c): half p's size, centred in its octant, one level down, empty and asleep. */
  function ChildNode(p: Node, c: NodeId, k: int): Node
  {
    var half := Scale(p.size, 0.5);
    Node(p.depth + 1, Add(p.position, Mul(Octant(k), half)), half, true, [], Some(c), [])
  }

  function Eight(base: nat): (r: seq<NodeId>)
    ensures |r| == 8 && NoDup(r)
    ensures forall k :: 0 <= k < 8 ==> r[k] == base + k
  {
    [base, base + 1, base + 2, base + 3, base + 4, base + 5, base + 6, base + 7]
  }

  /** The arena after node c splits: its eight children appended, in order. */
  function SplitNodes(nodes: seq<Node>, c: NodeId): (r: seq<Node>)
    requires c < |nodes|
    ensures |r| == |nodes| + 8
    ensures r[c] == nodes[c].(children := Eight(|nodes|))
    ensures forall m :: 0 <= m < |nodes| && m != c ==> r[m] == nodes[m]
    ensures forall k :: 0 <= k < 8 ==> r[|nodes| + k] == ChildNode(nodes[c], c, k)
  {
    var n := nodes[c];
    nodes[c := n.(children := Eight(|nodes|))]
      + [ChildNode(n, c, 0), ChildNode(n, c, 1), ChildNode(n, c, 2), ChildNode(n, c, 3),
         ChildNode(n, c, 4), ChildNode(n, c, 5), ChildNode(n, c, 6), ChildNode(n, c, 7)]
  }

  /** Each child's region lies inside its parent's: a split never enlarges the space a node covers. */
  lemma ChildWithinParent(p: Node, c: NodeId, k: int)
    requires p.size.x >= 0.0 && p.size.y >= 0.0 && p.size.z >= 0.0
    ensures AABBFullyWithin(ChildNode(p, c, k).position, p.position, ChildNode(p, c, k).size, p.size)
  {
  }

  /**
   * The node Update re-inserts a moved object at: the nearest of c and its
   * ancestors whose region fully contains the object's box, or None when not
   * even the root does (the object has left the tree).
   */
  ghost function FirstContaining(nodes: seq<Node>, maxDepth: int, c: NodeId, pos: Vec3, size: Vec3): (r: Option<NodeId>)
    requires Structured(nodes, maxDepth) && c < |nodes|
    ensures r.Some? ==> r.value < |nodes| && AABBFullyWithin(pos, nodes[r.value].position, size, nodes[r.value].size)
    ensures r.Some? ==> nodes[r.value].depth <= nodes[c].depth
    ensures r.None? ==> !AABBFullyWithin(pos, nodes[0].position, size, nodes[0].size)
    decreases nodes[c].depth
  {
    assert NodeOk(nodes, c, maxDepth);
    if AABBFullyWithin(pos, nodes[c].position, size, nodes[c].size) then Some(c)
    else if nodes[c].parent.None? then None
    else
      assert NodeOk(nodes, nodes[c].parent.value, maxDepth);
      FirstContaining(nodes, maxDepth, nodes[c].parent.value, pos, size)
  }

  // ------------------------------------------------------ structure lemmas

  /** Replacing the entries of a node with entries that overlap it keeps the arena a tree. */
  lemma StructuredSetContents(nodes: seq<Node>, maxDepth: int, c: NodeId, cs: seq<Entry>, s: bool)
    requires Structured(nodes, maxDepth) && c < |nodes|
    requires forall j :: 0 <= j < |cs| ==> Overlaps(cs[j], nodes[c])
    ensures Structured(nodes[c := nodes[c].(contents := cs, sleep := s)], maxDepth)
  {
    var b := nodes[c := nodes[c].(contents := cs, sleep := s)];
    forall i | 0 <= i < |b| ensures NodeOk(b, i, maxDepth) {
      assert NodeOk(nodes, i, maxDepth);
      if nodes[i].parent.Some? {
        assert b[nodes[i].parent.value].children == nodes[nodes[i].parent.value].children;
      }
    }
  }

  /** Splitting a leaf above the depth limit keeps the arena a tree. */
  lemma StructuredSplit(nodes: seq<Node>, maxDepth: int, c: NodeId)
    requires Structured(nodes, maxDepth) && c < |nodes|
    requires IsLeaf(nodes[c]) && nodes[c].depth < maxDepth
    ensures Structured(SplitNodes(nodes, c), maxDepth)
  {
    var b := SplitNodes(nodes, c);
    var n := |nodes|;
    assert NodeOk(nodes, c, maxDepth);
    forall i | 0 <= i < |b| ensures NodeOk(b, i, maxDepth) {
      if i < n {
        assert NodeOk(nodes, i, maxDepth);
        if nodes[i].parent.Some? {
          var p := nodes[i].parent.value;
          assert i in nodes[p].children && |nodes[c].children| == 0;
          assert p != c;
        }
        if |b[i].children| == 8 {
          forall k | 0 <= k < 8 ensures b[i].children[k] < |b| && b[b[i].children[k]].parent == Some(i) {
            if i == c {
              assert b[n + k] == ChildNode(nodes[c], c, k);
            } else {
              var ch := nodes[i].children[k];
              assert ch < n && nodes[ch].parent == Some(i);
              assert b[ch].parent == nodes[ch].parent;
            }
          }
        }
        assert NodeOk(b, i, maxDepth);
      } else {
        var k := i - n;
        assert b[i] == ChildNode(nodes[c], c, k);
        assert b[c].children[k] == i;
        assert NodeOk(b, i, maxDepth);
      }
    }
  }

  lemma StructuredSetContentsKeepsLeavesOnly(nodes: seq<Node>, c: NodeId, cs: seq<Entry>, s: bool)
    requires c < |nodes| && LeavesOnly(nodes) && (IsLeaf(nodes[c]) || cs == [])
    ensures LeavesOnly(nodes[c := nodes[c].(contents := cs, sleep := s)])
  {
  }

  // ------------------------------------------------------ symmetry lemmas

  /** A node the owning lists cannot name is referenced zero times. */
  lemma RefsOutOfRange(nodes: seq<Node>, own: map<ObjId, seq<NodeId>>, o: ObjId, m: NodeId)
    requires InRange(nodes, own) && m >= |nodes|
    ensures Refs(own, o, m) == 0
  {
    if o in own {
      assert forall k :: 0 <= k < |own[o]| ==> own[o][k] != m;
      assert m !in own[o];
    }
  }

  lemma SymFromWeaken(nodes: seq<Node>, own: map<ObjId, seq<NodeId>>, d: int, d': int)
    requires SymFrom(nodes, own, d) && d <= d'
    ensures SymFrom(nodes, own, d')
  {
  }

  /** Storing an entry of o in c and naming c in o's owning list keeps the two sides in agreement. */
  lemma SymPush(nodes: seq<Node>, own: map<ObjId, seq<NodeId>>, d: int, c: NodeId, e: Entry)
    requires SymFrom(nodes, own, d) && c < |nodes|
    ensures SymFrom(nodes[c := nodes[c].(contents := nodes[c].contents + [e], sleep := nodes[c].sleep && e.slept)],
                    own[e.obj := Own(own, e.obj) + [c]], d)
  {
    var b := nodes[c := nodes[c].(contents := nodes[c].contents + [e], sleep := nodes[c].sleep && e.slept)];
    var own' := own[e.obj := Own(own, e.obj) + [c]];
    forall o: ObjId, m: NodeId | m < |b| && b[m].depth >= d && m != -1 ensures Balanced(b, own', o, m) {
      assert Balanced(nodes, own, o, m);
      SymPushAt(nodes, own, c, e, o, m);
    }
  }

  /** SymPush for one object and one node. */
  lemma SymPushAt(nodes: seq<Node>, own: map<ObjId, seq<NodeId>>, c: NodeId, e: Entry, o: ObjId, m: NodeId)
    requires c < |nodes| && m < |nodes| && Balanced(nodes, own, o, m)
    ensures Balanced(nodes[c := nodes[c].(contents := nodes[c].contents + [e], sleep := nodes[c].sleep && e.slept)],
                     own[e.obj := Own(own, e.obj) + [c]], o, m)
  {
    var own' := own[e.obj := Own(own, e.obj) + [c]];
    if o == e.obj {
      assert Own(own', o) == Own(own, o) + [c];
      assert Refs(own', o, m) == Refs(own, o, m) + (if m == c then 1 else 0);
    } else {
      assert Own(own', o) == Own(own, o);
    }
    if m == c {
      ObjsAppend(nodes[c].contents, [e]);
      assert CountIn(nodes[c].contents + [e], o) == CountIn(nodes[m].contents, o) + (if o == e.obj then 1 else 0);
    }
  }

  /** Appending a split's eight empty children keeps the agreement: no list names them yet. */
  lemma SymSplit(nodes: seq<Node>, own: map<ObjId, seq<NodeId>>, d: int, c: NodeId)
    requires SymFrom(nodes, own, d) && InRange(nodes, own) && c < |nodes|
    ensures SymFrom(SplitNodes(nodes, c), own, d)
    ensures InRange(SplitNodes(nodes, c), own)
  {
    var b := SplitNodes(nodes, c);
    forall o: ObjId, m: NodeId | m < |b| && b[m].depth >= d && m != -1 ensures Balanced(b, own, o, m) {
      if m < |nodes| {
        assert Balanced(nodes, own, o, m);
      } else {
        RefsOutOfRange(nodes, own, o, m);
      }
    }
  }

  /**
   * After a call that kept agreement from depth d on, extended the arena
   * below d and left the references above d alone, the agreement that held
   * from a shallower depth d0 on holds again.
   */
  lemma SymFromUp(a: seq<Node>, ownA: map<ObjId, seq<NodeId>>, b: seq<Node>, ownB: map<ObjId, seq<NodeId>>,
                  d0: int, d: int, x: int)
    requires SymFromBut(a, ownA, d0, x) && SymFrom(b, ownB, d) && d0 <= d
    requires Extends(a, b, d) && OwnKept(a, ownA, ownB, d)
    ensures SymFromBut(b, ownB, d0, x)
  {
    forall o: ObjId, m: NodeId | m < |b| && b[m].depth >= d0 && m != x ensures Balanced(b, ownB, o, m) {
      if b[m].depth < d {
        assert m < |a|;
        assert Balanced(a, ownA, o, m);
      } else {
        assert Balanced(b, ownB, o, m);
      }
    }
  }

  lemma ExtendsWeaken(a: seq<Node>, b: seq<Node>, d: int, d': int)
    requires Extends(a, b, d') && d <= d'
    ensures Extends(a, b, d)
  {
  }

  lemma OwnKeptWeaken(a: seq<Node>, ownA: map<ObjId, seq<NodeId>>, ownB: map<ObjId, seq<NodeId>>, d: int, d': int)
    requires OwnKept(a, ownA, ownB, d') && d <= d'
    ensures OwnKept(a, ownA, ownB, d)
  {
  }

  /** Changing which nodes one object's owning list names changes the references of that object only. */
  lemma SymFromButSetOwn(nodes: seq<Node>, own: map<ObjId, seq<NodeId>>, d: int, x: int, o: ObjId, l: seq<NodeId>)
    requires SymFromBut(nodes, own, d, x)
    requires forall m :: 0 <= m < |nodes| && m != x && nodes[m].depth >= d ==> multiset(l)[m] == Refs(own, o, m)
    ensures SymFromBut(nodes, own[o := l], d, x)
  {
    var own' := own[o := l];
    forall p: ObjId, m: NodeId | m < |nodes| && nodes[m].depth >= d && m != x ensures Balanced(nodes, own', p, m) {
      assert Balanced(nodes, own, p, m);
      RefsSetOwn(own, o, l, p, m);
    }
  }

  /** Setting o's owning list to l gives o the references of l and leaves every other object's alone. */
  lemma RefsSetOwn(own: map<ObjId, seq<NodeId>>, o: ObjId, l: seq<NodeId>, p: ObjId, m: NodeId)
    ensures Refs(own[o := l], p, m) == if p == o then multiset(l)[m] else Refs(own, p, m)
  {
    if p != o {
      assert Own(own[o := l], p) == Own(own, p);
    }
  }

  /** The contents of the arena after node c's entries are replaced. */
  lemma SymFromButSetContents(nodes: seq<Node>, own: map<ObjId, seq<NodeId>>, d: int, x: int, c: NodeId, cs: seq<Entry>, s: bool)
    requires SymFromBut(nodes, own, d, x) && c < |nodes|
    requires forall p: ObjId :: nodes[c].depth >= d && c != x ==> CountIn(cs, p) == Refs(own, p, c)
    ensures SymFromBut(nodes[c := nodes[c].(contents := cs, sleep := s)], own, d, x)
  {
    var b := nodes[c := nodes[c].(contents := cs, sleep := s)];
    forall p: ObjId, m: NodeId | m < |b| && b[m].depth >= d && m != x ensures Balanced(b, own, p, m) {
      if m != c {
        assert Balanced(nodes, own, p, m);
      }
    }
  }

  /** Emptying node c once no owning list names it restores agreement at c. */
  lemma SymFromClear(nodes: seq<Node>, own: map<ObjId, seq<NodeId>>, d: int, c: NodeId)
    requires SymFromBut(nodes, own, d, c) && c < |nodes|
    requires forall p: ObjId :: Refs(own, p, c) == 0
    ensures SymFrom(nodes[c := nodes[c].(contents := [], sleep := true)], own, d)
  {
    var b := nodes[c := nodes[c].(contents := [], sleep := true)];
    forall p: ObjId, m: NodeId | m < |b| && b[m].depth >= d && m != -1 ensures Balanced(b, own, p, m) {
      if m != c {
        assert Balanced(nodes, own, p, m);
      } else {
        assert Refs(own, p, c) == 0;
      }
    }
  }

  lemma ExtendsTrans(a: seq<Node>, b: seq<Node>, c: seq<Node>, d: int, d': int)
    requires Extends(a, b, d) && Extends(b, c, d') && d <= d'
    ensures Extends(a, c, d)
  {
  }

  lemma OwnKeptTrans(a: seq<Node>, b: seq<Node>, ownA: map<ObjId, seq<NodeId>>, ownB: map<ObjId, seq<NodeId>>,
                     ownC: map<ObjId, seq<NodeId>>, d: int, d': int)
    requires Extends(a, b, d) && OwnKept(a, ownA, ownB, d) && OwnKept(b, ownB, ownC, d') && d <= d'
    ensures OwnKept(a, ownA, ownC, d)
  {
    forall p: ObjId, m: NodeId | m < |a| && a[m].depth < d ensures Refs(ownC, p, m) == Refs(ownA, p, m) {
      assert b[m] == a[m];
    }
  }

  /** Entries removed from or pushed onto a list change the counts by exactly those entries. */
  lemma CountInAppend(a: seq<Entry>, b: seq<Entry>, o: ObjId)
    ensures CountIn(a + b, o) == CountIn(a, o) + CountIn(b, o)
  {
    ObjsAppend(a, b);
  }

  lemma NoNewMixedTrans(a: seq<Node>, b: seq<Node>, c: seq<Node>)
    requires NoNewMixed(a, b) && NoNewMixed(b, c)
    ensures NoNewMixed(a, c)
  {
  }
}
