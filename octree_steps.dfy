/**
 * The facts OctTreeNode::Insert keeps, bundled so that each recursive call
 * can state them in one piece, and the lemmas that carry them from one step
 * of an insertion to the next.
 */
module OctTreeSteps {
  import opened Common
  import opened OctTreeShape

  /** A well-formed arena whose owning lists name its nodes and agree with every node from depth d down. */
  ghost predicate Good(nodes: seq<Node>, own: map<ObjId, seq<NodeId>>, maxDepth: int, d: int)
  {
    Structured(nodes, maxDepth) && InRange(nodes, own) && SymFrom(nodes, own, d)
  }

  /**
   * (b, ownB) came from (a, ownA) by work below depth d: nodes only added
   * below d, nodes and references above d untouched, no new mixed node.
   */
  ghost predicate Grown(a: seq<Node>, ownA: map<ObjId, seq<NodeId>>, b: seq<Node>, ownB: map<ObjId, seq<NodeId>>, d: int)
  {
    Extends(a, b, d) && OwnKept(a, ownA, ownB, d) && NoNewMixed(a, b)
  }

  lemma GoodWeaken(nodes: seq<Node>, own: map<ObjId, seq<NodeId>>, maxDepth: int, d: int)
    requires Good(nodes, own, maxDepth, d)
    ensures Good(nodes, own, maxDepth, d + 1)
  {
    SymFromWeaken(nodes, own, d, d + 1);
  }

  lemma GrownTrans(a: seq<Node>, ownA: map<ObjId, seq<NodeId>>, b: seq<Node>, ownB: map<ObjId, seq<NodeId>>,
                   c: seq<Node>, ownC: map<ObjId, seq<NodeId>>, d: int, d': int)
    requires Grown(a, ownA, b, ownB, d) && Grown(b, ownB, c, ownC, d') && d <= d'
    ensures Grown(a, ownA, c, ownC, d)
  {
    ExtendsTrans(a, b, c, d, d');
    OwnKeptTrans(a, b, ownA, ownB, ownC, d, d');
    NoNewMixedTrans(a, b, c);
  }

  /** Work on the children of a node at depth d, which kept agreement from depth d + 1 on, keeps it from d on. */
  lemma GoodUp(a: seq<Node>, ownA: map<ObjId, seq<NodeId>>, b: seq<Node>, ownB: map<ObjId, seq<NodeId>>, maxDepth: int, d: int)
    requires Good(a, ownA, maxDepth, d) && Good(b, ownB, maxDepth, d + 1) && Grown(a, ownA, b, ownB, d + 1)
    ensures Good(b, ownB, maxDepth, d) && Grown(a, ownA, b, ownB, d)
  {
    SymFromUp(a, ownA, b, ownB, d, d + 1, -1);
    ExtendsWeaken(a, b, d, d + 1);
    OwnKeptWeaken(a, ownA, ownB, d, d + 1);
  }

  /** The arena after leaf c stores entry e at the back of its contents. */
  function Pushed(nodes: seq<Node>, c: NodeId, e: Entry): (r: seq<Node>)
    requires c < |nodes|
    ensures |r| == |nodes| && r[c].contents == nodes[c].contents + [e]
  {
    nodes[c := nodes[c].(contents := nodes[c].contents + [e], sleep := nodes[c].sleep && e.slept)]
  }

  /** o's owning list after it names node c once more. */
  function Named(own: map<ObjId, seq<NodeId>>, o: ObjId, c: NodeId): (r: map<ObjId, seq<NodeId>>)
    ensures Own(r, o) == Own(own, o) + [c]
  {
    own[o := Own(own, o) + [c]]
  }

  /** A leaf that stores an entry overlapping it, and is named in the entry's object's list, keeps the arena good. */
  lemma GoodPush(nodes: seq<Node>, own: map<ObjId, seq<NodeId>>, maxDepth: int, c: NodeId, e: Entry)
    requires c < |nodes| && Good(nodes, own, maxDepth, nodes[c].depth)
    requires IsLeaf(nodes[c]) && Overlaps(e, nodes[c])
    ensures Good(Pushed(nodes, c, e), Named(own, e.obj, c), maxDepth, nodes[c].depth)
    ensures Grown(nodes, own, Pushed(nodes, c, e), Named(own, e.obj, c), nodes[c].depth)
  {
    var cs := nodes[c].contents + [e];
    assert NodeOk(nodes, c, maxDepth);
    StructuredSetContents(nodes, maxDepth, c, cs, nodes[c].sleep && e.slept);
    SymPush(nodes, own, nodes[c].depth, c, e);
    InRangeNamed(nodes, own, e.obj, c);
    GrownPush(nodes, own, c, e);
  }

  /** Naming a node of the arena keeps every list within the arena. */
  lemma InRangeNamed(nodes: seq<Node>, own: map<ObjId, seq<NodeId>>, o: ObjId, c: NodeId)
    requires InRange(nodes, own) && c < |nodes|
    ensures InRange(nodes, Named(own, o, c))
  {
    var own' := Named(own, o, c);
    forall p, k | p in own' && 0 <= k < |own'[p]| ensures own'[p][k] < |nodes| {
      if p != o {
        assert own'[p] == own[p];
      } else if p in own {
        assert own'[p] == own[p] + [c];
      } else {
        assert own'[p] == [c];
      }
    }
  }

  /** Storing an entry in leaf c changes only c, and only c gains a reference. */
  lemma GrownPush(nodes: seq<Node>, own: map<ObjId, seq<NodeId>>, c: NodeId, e: Entry)
    requires c < |nodes| && IsLeaf(nodes[c])
    ensures Grown(nodes, own, Pushed(nodes, c, e), Named(own, e.obj, c), nodes[c].depth)
  {
    var own' := Named(own, e.obj, c);
    forall p: ObjId, m: NodeId | m < |nodes| && nodes[m].depth < nodes[c].depth
      ensures Refs(own', p, m) == Refs(own, p, m)
    {
      if p == e.obj {
        assert multiset(Own(own', p)) == multiset(Own(own, p)) + multiset{c};
      } else {
        assert Own(own', p) == Own(own, p);
      }
    }
  }

  /**
   * What one pass of the re-insertion loop leaves: the entry's object no
   * longer names c, c itself and everything above it are as they were, and
   * the children, which received the entry, are good again.
   */
  ghost predicate Reinserted(a: seq<Node>, ownA: map<ObjId, seq<NodeId>>, b: seq<Node>, ownB: map<ObjId, seq<NodeId>>,
                             maxDepth: int, c: NodeId, e: Entry)
  {
    c < |a|
    && c in Own(ownA, e.obj)
    && Good(b, ownB, maxDepth, a[c].depth + 1) && SymFromBut(b, ownB, a[c].depth, c)
    && Extends(a, b, a[c].depth + 1) && OwnKept(a, ownA, ownB, a[c].depth) && NoNewMixed(a, b)
    && forall p: ObjId :: Refs(ownB, p, c) == if p == e.obj then 0 else Refs(ownA, p, c)
  }

  /** Taking node c off o's owning list leaves every other reference, and c's agreement with every other object, as it was. */
  lemma Unnamed(nodes: seq<Node>, own: map<ObjId, seq<NodeId>>, own1: map<ObjId, seq<NodeId>>, maxDepth: int, c: NodeId, o: ObjId)
    requires c < |nodes| && Good(nodes, own, maxDepth, nodes[c].depth + 1) && SymFromBut(nodes, own, nodes[c].depth, c)
    requires own1 == own[o := RemoveAll(Own(own, o), c)]
    ensures Good(nodes, own1, maxDepth, nodes[c].depth + 1)
    ensures SymFromBut(nodes, own1, nodes[c].depth, c)
    ensures OwnKept(nodes, own, own1, nodes[c].depth)
    ensures forall q: ObjId :: Refs(own1, q, c) == if q == o then 0 else Refs(own, q, c)
  {
    var d := nodes[c].depth;
    var l := RemoveAll(Own(own, o), c);
    assert multiset(l) == multiset(Own(own, o))[c := 0];
    SymFromButSetOwn(nodes, own, d, c, o, l);
    SymFromButSetOwn(nodes, own, d + 1, -1, o, l);
    UnnamedInRange(nodes, own, own1, c, o);
    forall q: ObjId, m: NodeId | m < |nodes| && nodes[m].depth < d ensures Refs(own1, q, m) == Refs(own, q, m) {
      RefsSetOwn(own, o, l, q, m);
    }
    forall q: ObjId ensures Refs(own1, q, c) == if q == o then 0 else Refs(own, q, c) {
      RefsSetOwn(own, o, l, q, c);
    }
  }

  lemma UnnamedInRange(nodes: seq<Node>, own: map<ObjId, seq<NodeId>>, own1: map<ObjId, seq<NodeId>>, c: NodeId, o: ObjId)
    requires InRange(nodes, own) && own1 == own[o := RemoveAll(Own(own, o), c)]
    ensures InRange(nodes, own1)
  {
    forall p, k | p in own1 && 0 <= k < |own1[p]| ensures own1[p][k] < |nodes| {
      if p == o {
        assert own1[p][k] in Own(own, o);
      }
    }
  }

  /**
   * The loop invariant of the split branch of OctTreeNode::Insert, k entries
   * of the former contents es in: node c, split into (n1, own1), still holds
   * es; the objects of the first k entries no longer name c, the others name
   * it as often as they occur; the first k objects were distinct (else
   * RemoveOwningNode would have thrown); below c everything is good.
   */
  ghost predicate Redistributing(n1: seq<Node>, own1: map<ObjId, seq<NodeId>>, nodes: seq<Node>, own: map<ObjId, seq<NodeId>>,
                                 maxDepth: int, c: NodeId, es: seq<Entry>, k: int)
  {
    c < |n1| && 0 <= k <= |es|
    && Good(nodes, own, maxDepth, n1[c].depth + 1) && SymFromBut(nodes, own, n1[c].depth, c)
    && c < |nodes| && nodes[c] == n1[c]
    && Extends(n1, nodes, n1[c].depth + 1) && OwnKept(n1, own1, own, n1[c].depth) && NoNewMixed(n1, nodes)
    && (forall p: ObjId :: Refs(own, p, c) == if p in Objs(es[..k]) then 0 else CountIn(es, p))
    && NoDup(Objs(es[..k]))
  }

  /** Right after the split of leaf c, nothing is re-inserted yet. */
  lemma RedistributingStart(n0: seq<Node>, own0: map<ObjId, seq<NodeId>>, maxDepth: int, c: NodeId)
    requires c < |n0| && Good(n0, own0, maxDepth, n0[c].depth)
    requires IsLeaf(n0[c]) && n0[c].depth < maxDepth
    ensures Redistributing(SplitNodes(n0, c), own0, SplitNodes(n0, c), own0, maxDepth, c, n0[c].contents, 0)
  {
    var n1 := SplitNodes(n0, c);
    var d := n0[c].depth;
    var es := n0[c].contents;
    StructuredSplit(n0, maxDepth, c);
    SymSplit(n0, own0, d, c);
    SymFromWeaken(n1, own0, d, d + 1);
    SymFromWeaken(n1, own0, d, d);
    forall q: ObjId ensures Refs(own0, q, c) == CountIn(es, q) {
      assert Balanced(n0, own0, q, c);
    }
    assert es[..0] == [];
    assert Objs(es[..0]) == [];
  }

  /** One pass of the loop keeps the invariant, one entry further on. */
  lemma RedistributingStep(n1: seq<Node>, own1: map<ObjId, seq<NodeId>>, n2: seq<Node>, own2: map<ObjId, seq<NodeId>>,
                           nodes: seq<Node>, own: map<ObjId, seq<NodeId>>, maxDepth: int, c: NodeId, es: seq<Entry>, k: int)
    requires Redistributing(n1, own1, n2, own2, maxDepth, c, es, k) && k < |es|
    requires Reinserted(n2, own2, nodes, own, maxDepth, c, es[k])
    ensures Redistributing(n1, own1, nodes, own, maxDepth, c, es, k + 1)
  {
    var d := n1[c].depth;
    ExtendsTrans(n1, n2, nodes, d + 1, d + 1);
    ExtendsWeaken(n1, n2, d, d + 1);
    OwnKeptTrans(n1, n2, own1, own2, own, d, d);
    NoNewMixedTrans(n1, n2, nodes);
    RefsStep(own2, own, c, es, k);
  }

  /** The counting half of RedistributingStep: entry k's object joins the ones that no longer name c. */
  lemma RefsStep(own2: map<ObjId, seq<NodeId>>, own: map<ObjId, seq<NodeId>>, c: NodeId, es: seq<Entry>, k: int)
    requires 0 <= k < |es| && c in Own(own2, es[k].obj) && NoDup(Objs(es[..k]))
    requires forall q: ObjId :: Refs(own2, q, c) == if q in Objs(es[..k]) then 0 else CountIn(es, q)
    requires forall q: ObjId :: Refs(own, q, c) == if q == es[k].obj then 0 else Refs(own2, q, c)
    ensures forall q: ObjId :: Refs(own, q, c) == if q in Objs(es[..k + 1]) then 0 else CountIn(es, q)
    ensures NoDup(Objs(es[..k + 1]))
  {
    var p := es[k].obj;
    ObjsPrefixStep(es, k);
    assert Refs(own2, p, c) > 0 by {
      assert c in multiset(Own(own2, p));
    }
    assert p !in Objs(es[..k]);
    var ob := Objs(es[..k + 1]);
    forall i, j | 0 <= i < j < |ob| ensures ob[i] != ob[j] {
      if j == k {
        assert ob[i] == Objs(es[..k])[i];
      } else {
        assert ob[i] == Objs(es[..k])[i] && ob[j] == Objs(es[..k])[j];
      }
    }
    forall q: ObjId ensures Refs(own, q, c) == if q in ob then 0 else CountIn(es, q) {
      assert (q in ob) <==> (q in Objs(es[..k]) || q == p);
    }
  }

  /**
   * After the last pass and the clearing of c, the arena is good from c's
   * depth on again, grew only below it, and the former contents held each
   * object at most once.
   */
  lemma RedistributingEnd(n0: seq<Node>, own0: map<ObjId, seq<NodeId>>, nodes: seq<Node>, own: map<ObjId, seq<NodeId>>,
                          maxDepth: int, c: NodeId)
    requires c < |n0| && Good(n0, own0, maxDepth, n0[c].depth)
    requires IsLeaf(n0[c]) && n0[c].depth < maxDepth
    requires Redistributing(SplitNodes(n0, c), own0, nodes, own, maxDepth, c, n0[c].contents, |n0[c].contents|)
    ensures Good(nodes[c := nodes[c].(contents := [], sleep := true)], own, maxDepth, n0[c].depth)
    ensures Grown(n0, own0, nodes[c := nodes[c].(contents := [], sleep := true)], own, n0[c].depth)
    ensures NoDup(Objs(n0[c].contents))
  {
    var n1 := SplitNodes(n0, c);
    var d := n0[c].depth;
    var es := n0[c].contents;
    var b := nodes[c := nodes[c].(contents := [], sleep := true)];
    assert es[..|es|] == es;
    forall q: ObjId ensures Refs(own, q, c) == 0 {
      if q !in Objs(es) {
        assert q !in multiset(Objs(es));
      }
    }
    StructuredSetContents(nodes, maxDepth, c, [], true);
    SymFromClear(nodes, own, d, c);
    forall m | 0 <= m < |b| && Mixed(b[m]) ensures m < |n0| && Mixed(n0[m]) {
      assert m != c;
      assert Mixed(nodes[m]);
      assert m < |n1| && Mixed(n1[m]);
    }
    forall q: ObjId, m: NodeId | m < |n0| && n0[m].depth < d ensures Refs(own, q, m) == Refs(own0, q, m) {
      assert n1[m].depth < d;
    }
  }

  // ------------------------------------------------ deleting and moving

  /** The arena after OctTreeNode::Delete(o) on node c. */
  function Erased(nodes: seq<Node>, c: NodeId, o: ObjId): (r: seq<Node>)
    requires c < |nodes|
    ensures |r| == |nodes| && r[c].contents == RemoveFirst(nodes[c].contents, o)
    ensures forall m :: 0 <= m < |r| ==> r[m] == nodes[m].(contents := r[m].contents)
  {
    nodes[c := nodes[c].(contents := RemoveFirst(nodes[c].contents, o))]
  }

  /** Deleting o from each node of ms, the last one first (as RemoveFromTree pops the list from the back). */
  function DeleteAll(nodes: seq<Node>, ms: seq<NodeId>, o: ObjId): (r: seq<Node>)
    requires forall k :: 0 <= k < |ms| ==> ms[k] < |nodes|
    ensures |r| == |nodes|
  {
    if ms == [] then nodes else Erased(DeleteAll(nodes, ms[1..], o), ms[0], o)
  }

  /** Deleting entries changes no node's region or links. */
  lemma {:induction false} DeleteAllShape(nodes: seq<Node>, ms: seq<NodeId>, o: ObjId, m: NodeId)
    requires forall k :: 0 <= k < |ms| ==> ms[k] < |nodes|
    requires m < |nodes|
    ensures DeleteAll(nodes, ms, o)[m] == nodes[m].(contents := DeleteAll(nodes, ms, o)[m].contents)
  {
    if ms != [] {
      DeleteAllShape(nodes, ms[1..], o, m);
    }
  }

  /** Deleting an entry keeps the arena a tree with entries only in leaves. */
  lemma ErasedValid(nodes: seq<Node>, maxDepth: int, c: NodeId, o: ObjId)
    requires Structured(nodes, maxDepth) && LeavesOnly(nodes) && c < |nodes|
    ensures Structured(Erased(nodes, c, o), maxDepth) && LeavesOnly(Erased(nodes, c, o))
  {
    var es := nodes[c].contents;
    var cs := RemoveFirst(es, o);
    RemoveFirstSubset(es, o);
    assert NodeOk(nodes, c, maxDepth);
    forall j | 0 <= j < |cs| ensures Overlaps(cs[j], nodes[c]) {
      assert cs[j] in multiset(es);
    }
    StructuredSetContents(nodes, maxDepth, c, cs, nodes[c].sleep);
    assert Erased(nodes, c, o) == nodes[c := nodes[c].(contents := cs, sleep := nodes[c].sleep)];
    if !IsLeaf(nodes[c]) {
      assert !Mixed(nodes[c]);
      assert cs == [];
    }
    StructuredSetContentsKeepsLeavesOnly(nodes, c, cs, nodes[c].sleep);
  }

  /** Owning lists that keep naming nodes of the arena stay in range. */
  lemma InRangeSet(nodes: seq<Node>, own: map<ObjId, seq<NodeId>>, o: ObjId, l: seq<NodeId>)
    requires InRange(nodes, own) && forall k :: 0 <= k < |l| ==> l[k] < |nodes|
    ensures InRange(nodes, own[o := l])
  {
  }

  /** Deleting o's entry from node m while m leaves o's list once keeps the agreement. */
  lemma SymErase(nodes: seq<Node>, own: map<ObjId, seq<NodeId>>, o: ObjId, m: NodeId, l: seq<NodeId>)
    requires SymFrom(nodes, own, 1) && m < |nodes| && nodes[m].depth >= 1
    requires multiset(l) + multiset{m} == multiset(Own(own, o))
    ensures SymFrom(Erased(nodes, m, o), own[o := l], 1)
  {
    var b := Erased(nodes, m, o);
    var own' := own[o := l];
    assert Balanced(nodes, own, o, m);
    assert m in multiset(Own(own, o));
    assert o in Objs(nodes[m].contents) by {
      assert o in multiset(Objs(nodes[m].contents));
    }
    forall p: ObjId, n: NodeId | n < |b| && b[n].depth >= 1 && n != -1 ensures Balanced(b, own', p, n) {
      assert Balanced(nodes, own, p, n);
      SymEraseAt(nodes, own, o, m, l, p, n);
    }
  }

  /** SymErase for one object p and one node n. */
  lemma SymEraseAt(nodes: seq<Node>, own: map<ObjId, seq<NodeId>>, o: ObjId, m: NodeId, l: seq<NodeId>, p: ObjId, n: NodeId)
    requires m < |nodes| && n < |nodes| && Balanced(nodes, own, p, n) && o in Objs(nodes[m].contents)
    requires multiset(l) + multiset{m} == multiset(Own(own, o))
    ensures Balanced(Erased(nodes, m, o), own[o := l], p, n)
  {
    var b, own' := Erased(nodes, m, o), own[o := l];
    if p != o {
      assert Own(own', p) == Own(own, p);
    } else {
      assert Own(own', p) == l;
      assert multiset(Own(own, o))[n] == multiset(l)[n] + multiset{m}[n];
    }
    if n == m {
      RemoveFirstCount(nodes[m].contents, o, p);
    } else {
      assert b[n] == nodes[n];
    }
  }

  /**
   * A node whose object no longer names it, and which holds one entry of
   * it: after the entry is deleted, agreement is back.
   */
  lemma SymButErase(nodes: seq<Node>, own: map<ObjId, seq<NodeId>>, o: ObjId, c: NodeId)
    requires SymBut(nodes, own, o, c)
    ensures SymFrom(Erased(nodes, c, o), own, 1)
  {
    var b := Erased(nodes, c, o);
    assert o in Objs(nodes[c].contents) by {
      assert o in multiset(Objs(nodes[c].contents));
    }
    forall p: ObjId, n: NodeId | n < |b| && b[n].depth >= 1 && n != -1 ensures Balanced(b, own, p, n) {
      RemoveFirstCount(nodes[c].contents, o, p);
      if p != o || n != c {
        assert Balanced(nodes, own, p, n);
      }
    }
  }

  /** The node whose entry was kept is named again: agreement is back. */
  lemma SymButName(nodes: seq<Node>, own: map<ObjId, seq<NodeId>>, o: ObjId, c: NodeId)
    requires SymBut(nodes, own, o, c)
    ensures SymFrom(nodes, Named(own, o, c), 1)
  {
    var own' := Named(own, o, c);
    forall p: ObjId, n: NodeId | n < |nodes| && nodes[n].depth >= 1 && n != -1 ensures Balanced(nodes, own', p, n) {
      if p != o {
        assert Own(own', p) == Own(own, p);
        assert Balanced(nodes, own, p, n);
      } else if n != c {
        assert Balanced(nodes, own, p, n);
      }
    }
  }

  /** Taking the only node off o's list leaves that node with the one entry nobody names. */
  lemma SymPopFront(nodes: seq<Node>, own: map<ObjId, seq<NodeId>>, maxDepth: int, o: ObjId, f: NodeId)
    requires Structured(nodes, maxDepth) && SymFrom(nodes, own, 1) && f < |nodes| && Own(own, o) == [f]
    ensures SymBut(nodes, own[o := []], o, f)
  {
    var own' := own[o := []];
    assert NodeOk(nodes, f, maxDepth);
    assert Balanced(nodes, own, o, f);
    forall p: ObjId, n: NodeId | n < |nodes| && (p != o || n != f) ensures Balanced(nodes, own', p, n) {
      assert NodeOk(nodes, n, maxDepth);
      assert Balanced(nodes, own, p, n);
      if p != o {
        assert Own(own', p) == Own(own, p);
      }
    }
  }

  /**
   * The state of RemoveFromTree and NotifyOwningNodes after j rounds of
   * "delete from the last owning node, pop it": o's list l0 has lost its
   * last j nodes, each of which lost o's first entry.
   */
  ghost predicate Popped(n0: seq<Node>, own0: map<ObjId, seq<NodeId>>, l0: seq<NodeId>, nodes: seq<Node>,
                         own: map<ObjId, seq<NodeId>>, maxDepth: int, o: ObjId, j: int)
  {
    PoppedState(n0, own0, l0, nodes, own, o, j) && Structured(nodes, maxDepth) && InRange(nodes, own) && LeavesOnly(nodes)
  }

  /** After j rounds: the last j nodes of l0 are popped off o's list and no longer hold o. */
  ghost predicate PoppedState(n0: seq<Node>, own0: map<ObjId, seq<NodeId>>, l0: seq<NodeId>, nodes: seq<Node>,
                              own: map<ObjId, seq<NodeId>>, o: ObjId, j: int)
  {
    0 <= j <= |l0| && l0 == Own(own0, o)
    && (forall k :: 0 <= k < |l0| ==> l0[k] < |n0|)
    && own == (if j == 0 then own0 else own0[o := l0[..|l0| - j]])
    && Own(own, o) == l0[..|l0| - j]
    && nodes == DeleteAll(n0, l0[|l0| - j..], o)
  }

  lemma PoppedStart(nodes: seq<Node>, own: map<ObjId, seq<NodeId>>, maxDepth: int, o: ObjId)
    requires Structured(nodes, maxDepth) && InRange(nodes, own) && LeavesOnly(nodes)
    ensures Popped(nodes, own, Own(own, o), nodes, own, maxDepth, o, 0)
  {
    var l0 := Own(own, o);
    assert l0[|l0|..] == [];
    assert l0[..|l0|] == l0;
  }

  /** While rounds remain, o's list is not empty and its last node is in the arena. */
  lemma PoppedBack(n0: seq<Node>, own0: map<ObjId, seq<NodeId>>, l0: seq<NodeId>, nodes: seq<Node>,
                   own: map<ObjId, seq<NodeId>>, maxDepth: int, o: ObjId, j: int)
    requires Popped(n0, own0, l0, nodes, own, maxDepth, o, j) && j < |l0|
    ensures |Own(own, o)| > 0 && Own(own, o)[|Own(own, o)| - 1] < |nodes|
  {
    assert o in own;
  }

  /** Deleting o from the last node of its list and popping that node keeps the agreement. */
  lemma PopKeepsSym(nodes: seq<Node>, own: map<ObjId, seq<NodeId>>, maxDepth: int, o: ObjId)
    requires Structured(nodes, maxDepth) && SymFrom(nodes, own, 1)
    requires |Own(own, o)| > 0 && Own(own, o)[|Own(own, o)| - 1] < |nodes|
    ensures SymFrom(Erased(nodes, Own(own, o)[|Own(own, o)| - 1], o), own[o := Own(own, o)[..|Own(own, o)| - 1]], 1)
  {
    var l := Own(own, o);
    var back := l[|l| - 1];
    assert l == l[..|l| - 1] + [back];
    assert multiset(l[..|l| - 1]) + multiset{back} == multiset(l);
    assert NodeOk(nodes, back, maxDepth);
    SymErase(nodes, own, o, back, l[..|l| - 1]);
  }

  /** One more round: deleting from the list's last node and popping it is round j + 1. */
  lemma PoppedStep(n0: seq<Node>, own0: map<ObjId, seq<NodeId>>, l0: seq<NodeId>, nodes: seq<Node>,
                   own: map<ObjId, seq<NodeId>>, nodes': seq<Node>, own': map<ObjId, seq<NodeId>>,
                   maxDepth: int, o: ObjId, j: int)
    requires Popped(n0, own0, l0, nodes, own, maxDepth, o, j) && j < |l0|
    requires |Own(own, o)| > 0 && Own(own, o)[|Own(own, o)| - 1] < |nodes|
    requires nodes' == Erased(nodes, Own(own, o)[|Own(own, o)| - 1], o)
    requires own' == own[o := Own(own, o)[..|Own(own, o)| - 1]]
    ensures Popped(n0, own0, l0, nodes', own', maxDepth, o, j + 1)
  {
    assert PoppedState(n0, own0, l0, nodes, own, o, j);
    var back := l0[|l0| - j - 1];
    var l := l0[..|l0| - j - 1];
    var rest := l0[|l0| - j..];
    assert l0[|l0| - (j + 1)..] == [back] + rest;
    assert Own(own, o) == l + [back];
    assert Own(own, o)[|Own(own, o)| - 1] == back;
    assert Own(own, o)[..|Own(own, o)| - 1] == l;
    assert NodeOk(nodes, back, maxDepth);
    ErasedValid(nodes, maxDepth, back, o);
    InRangeSet(nodes, own, o, l);
    assert ([back] + rest)[1..] == rest;
    assert nodes' == DeleteAll(n0, l0[|l0| - (j + 1)..], o);
    assert own' == own0[o := l0[..|l0| - (j + 1)]];
  }

  /** Deleting an entry moves no node: the walk up from any node ends at the same place. */
  lemma {:induction false} FirstContainingErased(nodes: seq<Node>, maxDepth: int, c: NodeId, o: ObjId, x: NodeId, pos: Vec3, size: Vec3)
    requires Structured(nodes, maxDepth) && LeavesOnly(nodes) && c < |nodes| && x < |nodes|
    ensures Structured(Erased(nodes, c, o), maxDepth)
    ensures FirstContaining(Erased(nodes, c, o), maxDepth, x, pos, size) == FirstContaining(nodes, maxDepth, x, pos, size)
    decreases nodes[x].depth
  {
    ErasedValid(nodes, maxDepth, c, o);
    assert NodeOk(nodes, x, maxDepth);
    if nodes[x].parent.Some? {
      assert NodeOk(nodes, nodes[x].parent.value, maxDepth);
      FirstContainingErased(nodes, maxDepth, c, o, nodes[x].parent.value, pos, size);
    }
  }

  /** NotifyOwningNodes after its loop: only the first node is left; taking it off the list sets up its Update. */
  lemma PoppedAllButFirst(n0: seq<Node>, own0: map<ObjId, seq<NodeId>>, l0: seq<NodeId>, nodes: seq<Node>,
                          own: map<ObjId, seq<NodeId>>, maxDepth: int, o: ObjId)
    requires |l0| >= 1 && Popped(n0, own0, l0, nodes, own, maxDepth, o, |l0| - 1)
    ensures Own(own, o) == [l0[0]] && l0[0] < |nodes|
    ensures nodes == DeleteAll(n0, l0[1..], o)
    ensures nodes[l0[0]].position == n0[l0[0]].position && nodes[l0[0]].size == n0[l0[0]].size
    ensures Named(own[o := []], o, l0[0]) == own0[o := [l0[0]]]
    ensures own[o := []] == own0[o := []]
    ensures Structured(nodes, maxDepth) && InRange(nodes, own[o := []]) && LeavesOnly(nodes)
    ensures SymFrom(nodes, own, 1) ==> SymBut(nodes, own[o := []], o, l0[0])
  {
    assert l0[|l0| - (|l0| - 1)..] == l0[1..];
    FrontOnly(own0, own, l0, o);
    DeleteAllShape(n0, l0[1..], o, l0[0]);
    InRangeSet(nodes, own, o, []);
    if SymFrom(nodes, own, 1) {
      SymPopFront(nodes, own, maxDepth, o, l0[0]);
    }
  }

  /** With only the front node left on o's list, dropping it and naming it again gives back the list of one. */
  lemma FrontOnly(own0: map<ObjId, seq<NodeId>>, own: map<ObjId, seq<NodeId>>, l0: seq<NodeId>, o: ObjId)
    requires |l0| >= 1 && own == (if |l0| - 1 == 0 then own0 else own0[o := l0[..1]])
    ensures Named(own[o := []], o, l0[0]) == own0[o := [l0[0]]]
    ensures own[o := []] == own0[o := []]
  {
    assert l0[..1] == [l0[0]];
    var none: seq<NodeId> := [];
    assert Own(own[o := none], o) + [l0[0]] == [l0[0]];
    assert own[o := none][o := [l0[0]]] == own0[o := [l0[0]]];
  }

  /** RemoveFromTree after its loop: the whole list is gone, and with it every entry of o when the tree agreed. */
  lemma PoppedAll(n0: seq<Node>, own0: map<ObjId, seq<NodeId>>, l0: seq<NodeId>, nodes: seq<Node>,
                  own: map<ObjId, seq<NodeId>>, maxDepth: int, o: ObjId)
    requires Popped(n0, own0, l0, nodes, own, maxDepth, o, |l0|)
    ensures nodes == DeleteAll(n0, l0, o)
    ensures own == if l0 == [] then own0 else own0[o := []]
    ensures SymFrom(nodes, own, 1) ==> forall m :: 0 <= m < |nodes| ==> o !in Objs(nodes[m].contents)
  {
    assert l0[|l0| - |l0|..] == l0;
    assert l0[..|l0| - |l0|] == [];
    if SymFrom(nodes, own, 1) {
      forall m | 0 <= m < |nodes| ensures o !in Objs(nodes[m].contents) {
        assert NodeOk(nodes, m, maxDepth);
        UnnamedNotHeld(nodes, own, o, m);
      }
    }
  }

  /** With o named nowhere, agreement means no node holds an entry of o. */
  lemma UnnamedNotHeld(nodes: seq<Node>, own: map<ObjId, seq<NodeId>>, o: ObjId, m: NodeId)
    requires SymFrom(nodes, own, 1) && Own(own, o) == [] && m < |nodes| && nodes[m].depth >= 1
    ensures o !in Objs(nodes[m].contents)
  {
    assert Balanced(nodes, own, o, m);
  }
}
