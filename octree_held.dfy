/**
 * Where OctTreeNode::Insert leaves an entry, and what later insertions keep
 * of it. Reaches states the descent Insert makes; Refined relates an arena
 * to one that further insertions grew from it, and ReachesKept shows that an
 * entry held before is still held after. Stuck is the state in which
 * GameObject::RemoveOwningNode throws during a split.
 */
module OctTreeHeld {
  import opened Common
  import opened OctTreeShape
  import opened OctTreeSteps

  /**
   * Entry e is where Insert from node c puts it: a node whose region e's box
   * misses owes nothing; a leaf it overlaps holds e; an internal node it
   * overlaps has passed e to all eight children.
   */
  ghost predicate Reaches(nodes: seq<Node>, maxDepth: int, c: NodeId, e: Entry)
    requires Structured(nodes, maxDepth) && c < |nodes|
    decreases maxDepth - nodes[c].depth, 1
  {
    !Overlaps(e, nodes[c])
    || (if IsLeaf(nodes[c]) then e in nodes[c].contents else ReachesKids(nodes, maxDepth, c, e, 8))
  }

  /** Node c has children, and e reaches the first j of them. */
  ghost predicate ReachesKids(nodes: seq<Node>, maxDepth: int, c: NodeId, e: Entry, j: int)
    requires Structured(nodes, maxDepth) && c < |nodes|
    decreases maxDepth - nodes[c].depth, 0
  {
    assert NodeOk(nodes, c, maxDepth);
    |nodes[c].children| == 8 && 0 <= j <= 8
    && forall k :: 0 <= k < j ==>
         assert NodeOk(nodes, nodes[c].children[k], maxDepth);
         Reaches(nodes, maxDepth, nodes[c].children[k], e)
  }

  /**
   * Node m of a, as it is in b: same region; an internal node keeps its
   * children; a leaf either is still a leaf holding all it held, or has
   * split, each entry it held reaching all its new children.
   */
  ghost predicate RefinedAt(a: seq<Node>, b: seq<Node>, maxDepth: int, m: NodeId)
    requires Structured(a, maxDepth) && Structured(b, maxDepth) && m < |a| <= |b|
  {
    b[m].position == a[m].position && b[m].size == a[m].size
    && if IsLeaf(a[m]) && !IsLeaf(b[m]) then
         forall x :: x in a[m].contents ==> ReachesKids(b, maxDepth, m, x, 8)
       else
         b[m].children == a[m].children
         && (IsLeaf(a[m]) ==> forall x :: x in a[m].contents ==> x in b[m].contents)
  }

  /** b grew from a by insertions: every node of a is refined in b. */
  ghost predicate Refined(a: seq<Node>, b: seq<Node>, maxDepth: int)
  {
    Structured(a, maxDepth) && Structured(b, maxDepth) && |a| <= |b|
    && forall m :: 0 <= m < |a| ==> RefinedAt(a, b, maxDepth, m)
  }

  /** A node split with some object's entries held twice: RemoveOwningNode throws on the second. */
  ghost predicate Stuck(nodes: seq<Node>)
  {
    exists m :: 0 <= m < |nodes| && Mixed(nodes[m]) && !NoDup(Objs(nodes[m].contents))
  }

  /**
   * The split of leaf c into n1 under way, k entries of its former contents
   * es in: the arena refines n1 and each of those entries reaches all of c's
   * children.
   */
  ghost predicate Spread(n1: seq<Node>, nodes: seq<Node>, maxDepth: int, c: NodeId, es: seq<Entry>, k: int)
  {
    Refined(n1, nodes, maxDepth) && c < |n1| && !IsLeaf(n1[c]) && 0 <= k <= |es|
    && forall j :: 0 <= j < k ==> ReachesKids(nodes, maxDepth, c, es[j], 8)
  }

  // ------------------------------------------------------------ lemmas

  /** Whatever an entry reached before an insertion it still reaches after it. */
  lemma {:induction false} ReachesKept(a: seq<Node>, b: seq<Node>, maxDepth: int, m: NodeId, x: Entry)
    requires Refined(a, b, maxDepth) && m < |a| && Reaches(a, maxDepth, m, x)
    ensures Reaches(b, maxDepth, m, x)
    decreases maxDepth - a[m].depth, 1
  {
    assert RefinedAt(a, b, maxDepth, m);
    if Overlaps(x, a[m]) && !IsLeaf(a[m]) {
      ReachesKidsKept(a, b, maxDepth, m, x, 8);
    }
  }

  lemma {:induction false} ReachesKidsKept(a: seq<Node>, b: seq<Node>, maxDepth: int, m: NodeId, x: Entry, j: int)
    requires Refined(a, b, maxDepth) && m < |a| && !IsLeaf(a[m]) && ReachesKids(a, maxDepth, m, x, j)
    ensures ReachesKids(b, maxDepth, m, x, j)
    decreases maxDepth - a[m].depth, 0
  {
    assert RefinedAt(a, b, maxDepth, m);
    assert NodeOk(a, m, maxDepth);
    forall k | 0 <= k < j
      ensures Reaches(b, maxDepth, b[m].children[k], x)
    {
      var ch := a[m].children[k];
      assert NodeOk(a, ch, maxDepth);
      ReachesKept(a, b, maxDepth, ch, x);
    }
  }

  /** Child j of c, reached in turn, joins the children e reaches. */
  lemma ReachesKidsMore(nodes: seq<Node>, maxDepth: int, c: NodeId, e: Entry, j: int, ch: NodeId)
    requires Structured(nodes, maxDepth) && c < |nodes| && ReachesKids(nodes, maxDepth, c, e, j) && j < 8
    requires ch < |nodes| && ch == nodes[c].children[j] && Reaches(nodes, maxDepth, ch, e)
    ensures ReachesKids(nodes, maxDepth, c, e, j + 1)
  {
  }

  lemma RefinedRefl(a: seq<Node>, maxDepth: int)
    requires Structured(a, maxDepth)
    ensures Refined(a, a, maxDepth)
  {
  }

  lemma RefinedTrans(a: seq<Node>, b: seq<Node>, c: seq<Node>, maxDepth: int)
    requires Refined(a, b, maxDepth) && Refined(b, c, maxDepth)
    ensures Refined(a, c, maxDepth)
  {
    forall m | 0 <= m < |a| ensures RefinedAt(a, c, maxDepth, m) {
      assert RefinedAt(a, b, maxDepth, m) && RefinedAt(b, c, maxDepth, m);
      if IsLeaf(a[m]) && !IsLeaf(b[m]) {
        forall x | x in a[m].contents ensures ReachesKids(c, maxDepth, m, x, 8) {
          ReachesKidsKept(b, c, maxDepth, m, x, 8);
        }
      }
    }
  }

  /** A leaf storing an entry refines the arena, and the entry is there. */
  lemma RefinedPush(nodes: seq<Node>, maxDepth: int, c: NodeId, e: Entry)
    requires c < |nodes| && Structured(nodes, maxDepth) && IsLeaf(nodes[c]) && Overlaps(e, nodes[c])
    ensures Refined(nodes, Pushed(nodes, c, e), maxDepth)
    ensures Reaches(Pushed(nodes, c, e), maxDepth, c, e)
  {
    var b := Pushed(nodes, c, e);
    assert NodeOk(nodes, c, maxDepth);
    StructuredSetContents(nodes, maxDepth, c, nodes[c].contents + [e], nodes[c].sleep && e.slept);
    assert e in b[c].contents;
  }

  /** Emptying a node with children changes nothing an entry reaches. */
  lemma RefinedClear(nodes: seq<Node>, maxDepth: int, c: NodeId)
    requires c < |nodes| && Structured(nodes, maxDepth) && !IsLeaf(nodes[c])
    ensures Refined(nodes, nodes[c := nodes[c].(contents := [], sleep := true)], maxDepth)
  {
    StructuredSetContents(nodes, maxDepth, c, [], true);
    var b := nodes[c := nodes[c].(contents := [], sleep := true)];
    forall m | 0 <= m < |nodes| ensures RefinedAt(nodes, b, maxDepth, m) {
      assert NodeOk(nodes, m, maxDepth);
    }
  }

  /**
   * Leaf c of n0 split into SplitNodes(n0, c), which grew into b; once every
   * entry c held reaches all its children, b refines n0.
   */
  lemma RefinedSplit(n0: seq<Node>, b: seq<Node>, maxDepth: int, c: NodeId)
    requires c < |n0| && Structured(n0, maxDepth) && IsLeaf(n0[c])
    requires Refined(SplitNodes(n0, c), b, maxDepth)
    requires forall x :: x in n0[c].contents ==> ReachesKids(b, maxDepth, c, x, 8)
    ensures Refined(n0, b, maxDepth)
  {
    var n1 := SplitNodes(n0, c);
    forall m | 0 <= m < |n0| ensures RefinedAt(n0, b, maxDepth, m) {
      assert RefinedAt(n1, b, maxDepth, m);
      if m != c {
        assert n1[m] == n0[m];
      }
    }
  }

  /**
   * The end of the split of leaf c of n0: each entry it held reaches all the
   * children, so once c is emptied the arena refines n0.
   */
  lemma RefinedRedistributed(n0: seq<Node>, nodes: seq<Node>, maxDepth: int, c: NodeId)
    requires c < |n0| && Structured(n0, maxDepth) && IsLeaf(n0[c])
    requires Refined(SplitNodes(n0, c), nodes, maxDepth) && !IsLeaf(nodes[c])
    requires forall j :: 0 <= j < |n0[c].contents| ==> ReachesKids(nodes, maxDepth, c, n0[c].contents[j], 8)
    ensures Refined(n0, nodes[c := nodes[c].(contents := [], sleep := true)], maxDepth)
  {
    var b := nodes[c := nodes[c].(contents := [], sleep := true)];
    RefinedClear(nodes, maxDepth, c);
    RefinedTrans(SplitNodes(n0, c), nodes, b, maxDepth);
    forall x | x in n0[c].contents ensures ReachesKids(b, maxDepth, c, x, 8) {
      var j :| 0 <= j < |n0[c].contents| && n0[c].contents[j] == x;
      ReachesKidsKept(nodes, b, maxDepth, c, x, 8);
    }
    RefinedSplit(n0, b, maxDepth, c);
  }

  /** One more entry reaches the children, and the ones before it still do. */
  lemma SpreadStep(n1: seq<Node>, n2: seq<Node>, nodes: seq<Node>, maxDepth: int, c: NodeId, es: seq<Entry>, k: int)
    requires Spread(n1, n2, maxDepth, c, es, k) && k < |es|
    requires Refined(n2, nodes, maxDepth) && ReachesKids(nodes, maxDepth, c, es[k], 8)
    ensures Spread(n1, nodes, maxDepth, c, es, k + 1)
  {
    assert RefinedAt(n1, n2, maxDepth, c);
    forall j | 0 <= j < k ensures ReachesKids(nodes, maxDepth, c, es[j], 8) {
      ReachesKidsKept(n2, nodes, maxDepth, c, es[j], 8);
    }
    RefinedTrans(n1, n2, nodes, maxDepth);
  }

  /** The re-insertion of entry k failed because c was no longer on its object's list: the state is stuck. */
  lemma RedistributingStuck(n1: seq<Node>, own1: map<ObjId, seq<NodeId>>, nodes: seq<Node>, own: map<ObjId, seq<NodeId>>,
                            maxDepth: int, c: NodeId, es: seq<Entry>, k: int)
    requires Redistributing(n1, own1, nodes, own, maxDepth, c, es, k) && k < |es|
    requires n1[c].contents == es && |n1[c].children| == 8
    requires c !in Own(own, es[k].obj)
    ensures Stuck(nodes)
  {
    var p := es[k].obj;
    ObjsAt(es, k);
    assert p in multiset(Objs(es));
    assert Refs(own, p, c) == 0;
    StuckAt(nodes, c, es, k);
  }

  /** Entry k's object already occurs among the first k entries of a split node: the state is stuck. */
  lemma StuckAt(nodes: seq<Node>, c: NodeId, es: seq<Entry>, k: int)
    requires c < |nodes| && nodes[c].contents == es && |nodes[c].children| == 8
    requires 0 <= k < |es| && es[k].obj in Objs(es[..k])
    ensures Stuck(nodes)
  {
    var ob := Objs(es);
    var i :| 0 <= i < k && Objs(es[..k])[i] == es[k].obj;
    ObjsAt(es, k);
    ObjsAt(es, i);
    ObjsAt(es[..k], i);
    assert ob[i] == ob[k];
    assert Mixed(nodes[c]);
  }
}
