/**
 * The two whole-subtree walks of OctTreeNode, OperateOnContents and Clear,
 * specified over the subtree of a node: the nodes whose chain of parents
 * passes through it.
 */
module OctTreeWalk {
  import opened Common
  import opened OctTreeShape

  /** The ancestor of m at depth d, following parent links (m itself at its own depth). */
  ghost function Up(nodes: seq<Node>, maxDepth: int, m: NodeId, d: int): (r: NodeId)
    requires Structured(nodes, maxDepth) && m < |nodes| && 1 <= d <= nodes[m].depth
    ensures r < |nodes| && nodes[r].depth == d
    decreases nodes[m].depth
  {
    assert NodeOk(nodes, m, maxDepth);
    if nodes[m].depth == d then m
    else
      assert NodeOk(nodes, nodes[m].parent.value, maxDepth);
      Up(nodes, maxDepth, nodes[m].parent.value, d)
  }

  /** Node m lies in the subtree of node c. */
  ghost predicate Under(nodes: seq<Node>, maxDepth: int, m: NodeId, c: NodeId)
    requires Structured(nodes, maxDepth) && m < |nodes| && c < |nodes|
  {
    assert NodeOk(nodes, c, maxDepth);
    nodes[c].depth <= nodes[m].depth && Up(nodes, maxDepth, m, nodes[c].depth) == c
  }

  /** One level further up is the parent of the ancestor one level below. */
  lemma {:induction false} UpParent(nodes: seq<Node>, maxDepth: int, m: NodeId, d: int)
    requires Structured(nodes, maxDepth) && m < |nodes| && 1 <= d < nodes[m].depth
    ensures nodes[Up(nodes, maxDepth, m, d + 1)].parent == Some(Up(nodes, maxDepth, m, d))
    decreases nodes[m].depth
  {
    assert NodeOk(nodes, m, maxDepth);
    var p := nodes[m].parent.value;
    if nodes[m].depth > d + 1 {
      UpParent(nodes, maxDepth, p, d);
    }
  }

  /** Every node lies in the subtree of the root. */
  lemma UnderRoot(nodes: seq<Node>, maxDepth: int, m: NodeId)
    requires Structured(nodes, maxDepth) && m < |nodes|
    ensures Under(nodes, maxDepth, m, 0)
  {
    assert NodeOk(nodes, m, maxDepth);
    var r := Up(nodes, maxDepth, m, 1);
    assert NodeOk(nodes, r, maxDepth);
    assert nodes[r].parent.Some? ==> NodeOk(nodes, nodes[r].parent.value, maxDepth);
  }

  /** An ancestor strictly above m has children, so a leaf ancestor of m is m's own level. */
  lemma LeafAncestorIsSelf(nodes: seq<Node>, maxDepth: int, m: NodeId, d: int)
    requires Structured(nodes, maxDepth) && m < |nodes| && 1 <= d <= nodes[m].depth
    ensures IsLeaf(nodes[Up(nodes, maxDepth, m, d)]) ==> nodes[m].depth == d
  {
    if nodes[m].depth > d {
      UpParent(nodes, maxDepth, m, d);
      var x := Up(nodes, maxDepth, m, d + 1);
      assert NodeOk(nodes, x, maxDepth);
      assert NodeOk(nodes, Up(nodes, maxDepth, m, d), maxDepth);
    }
  }

  /** The subtree of a leaf is the leaf alone. */
  lemma UnderLeaf(nodes: seq<Node>, maxDepth: int, m: NodeId, c: NodeId)
    requires Structured(nodes, maxDepth) && m < |nodes| && c < |nodes| && IsLeaf(nodes[c])
    requires Under(nodes, maxDepth, m, c)
    ensures m == c
  {
    assert NodeOk(nodes, c, maxDepth);
    LeafAncestorIsSelf(nodes, maxDepth, m, nodes[c].depth);
  }

  /**
   * The subtree of an internal node is the node and the subtrees of its eight
   * children; a node lies under at most one of them.
   */
  lemma UnderKid(nodes: seq<Node>, maxDepth: int, m: NodeId, c: NodeId)
    requires Structured(nodes, maxDepth) && m < |nodes| && c < |nodes| && |nodes[c].children| == 8
    requires Under(nodes, maxDepth, m, c) && m != c
    ensures nodes[c].depth < nodes[m].depth
    ensures exists j :: 0 <= j < 8 && nodes[c].children[j] < |nodes| && Under(nodes, maxDepth, m, nodes[c].children[j])
  {
    assert NodeOk(nodes, c, maxDepth);
    UpParent(nodes, maxDepth, m, nodes[c].depth);
    var x := Up(nodes, maxDepth, m, nodes[c].depth + 1);
    assert NodeOk(nodes, x, maxDepth);
    var j :| 0 <= j < 8 && nodes[c].children[j] == x;
    assert Under(nodes, maxDepth, m, nodes[c].children[j]);
  }

  lemma UnderFromKid(nodes: seq<Node>, maxDepth: int, m: NodeId, c: NodeId, j: int)
    requires Structured(nodes, maxDepth) && m < |nodes| && c < |nodes| && |nodes[c].children| == 8 && 0 <= j < 8
    requires nodes[c].children[j] < |nodes| && Under(nodes, maxDepth, m, nodes[c].children[j])
    ensures Under(nodes, maxDepth, m, c) && m != c
  {
    assert NodeOk(nodes, c, maxDepth);
    var x := nodes[c].children[j];
    assert NodeOk(nodes, x, maxDepth);
    UpParent(nodes, maxDepth, m, nodes[c].depth);
  }

  lemma UnderOneKid(nodes: seq<Node>, maxDepth: int, m: NodeId, c: NodeId, i: int, j: int)
    requires Structured(nodes, maxDepth) && m < |nodes| && c < |nodes| && |nodes[c].children| == 8
    requires 0 <= i < 8 && 0 <= j < 8 && nodes[c].children[i] < |nodes| && nodes[c].children[j] < |nodes|
    requires Under(nodes, maxDepth, m, nodes[c].children[i]) && Under(nodes, maxDepth, m, nodes[c].children[j])
    ensures i == j
  {
    assert NodeOk(nodes, c, maxDepth);
    assert NodeOk(nodes, nodes[c].children[i], maxDepth);
    assert NodeOk(nodes, nodes[c].children[j], maxDepth);
  }

  // ------------------------------------------------------- OperateOnContents

  /**
   * The nodes whose contents OctTreeNode::OperateOnContents(func, ignoreSleep)
   * hands to func, in call order: the children are walked in order, each
   * with the flag at its default (false); a leaf is handed over when it holds
   * entries and the flag is off or the leaf is awake.
   */
  ghost function Visits(nodes: seq<Node>, maxDepth: int, c: NodeId, ignoreSleep: bool): seq<NodeId>
    requires Structured(nodes, maxDepth) && c < |nodes|
    decreases maxDepth - nodes[c].depth, 1
  {
    assert NodeOk(nodes, c, maxDepth);
    if |nodes[c].children| == 8 then VisitKids(nodes, maxDepth, c, 8)
    else if nodes[c].contents != [] && (!ignoreSleep || !nodes[c].sleep) then [c]
    else []
  }

  /** What the walks of the first k children of c hand over, in order. */
  ghost function VisitKids(nodes: seq<Node>, maxDepth: int, c: NodeId, k: int): seq<NodeId>
    requires Structured(nodes, maxDepth) && c < |nodes| && |nodes[c].children| == 8 && 0 <= k <= 8
    decreases maxDepth - nodes[c].depth, 0, k
  {
    assert NodeOk(nodes, c, maxDepth);
    if k == 0 then []
    else
      assert NodeOk(nodes, nodes[c].children[k - 1], maxDepth);
      VisitKids(nodes, maxDepth, c, k - 1) + Visits(nodes, maxDepth, nodes[c].children[k - 1], false)
  }

  /** A leaf func receives holds entries. */
  ghost predicate Handed(nodes: seq<Node>, m: int)
  {
    0 <= m < |nodes| && IsLeaf(nodes[m]) && nodes[m].contents != []
  }

  /** Only non-empty leaves of the subtree are handed to func. */
  lemma {:induction false} VisitsSound(nodes: seq<Node>, maxDepth: int, c: NodeId, ignoreSleep: bool, m: NodeId)
    requires Structured(nodes, maxDepth) && c < |nodes| && m in Visits(nodes, maxDepth, c, ignoreSleep)
    ensures Handed(nodes, m) && Under(nodes, maxDepth, m, c)
    decreases maxDepth - nodes[c].depth, 1
  {
    assert NodeOk(nodes, c, maxDepth);
    if |nodes[c].children| == 8 {
      var j := VisitKidsSound(nodes, maxDepth, c, 8, m);
      UnderFromKid(nodes, maxDepth, m, c, j);
    }
  }

  lemma {:induction false} VisitKidsSound(nodes: seq<Node>, maxDepth: int, c: NodeId, k: int, m: NodeId) returns (j: int)
    requires Structured(nodes, maxDepth) && c < |nodes| && |nodes[c].children| == 8 && 0 <= k <= 8
    requires m in VisitKids(nodes, maxDepth, c, k)
    ensures 0 <= j < k && nodes[c].children[j] < |nodes|
    ensures Handed(nodes, m) && Under(nodes, maxDepth, m, nodes[c].children[j])
    decreases maxDepth - nodes[c].depth, 0, k
  {
    assert NodeOk(nodes, c, maxDepth);
    assert k > 0;
    var x := nodes[c].children[k - 1];
    assert NodeOk(nodes, x, maxDepth);
    if m in Visits(nodes, maxDepth, x, false) {
      VisitsSound(nodes, maxDepth, x, false, m);
      j := k - 1;
    } else {
      j := VisitKidsSound(nodes, maxDepth, c, k - 1, m);
    }
  }

  /** With the flag off, every non-empty leaf of the subtree is handed to func. */
  lemma {:induction false} VisitsComplete(nodes: seq<Node>, maxDepth: int, c: NodeId, m: NodeId)
    requires Structured(nodes, maxDepth) && c < |nodes| && m < |nodes|
    requires Handed(nodes, m) && Under(nodes, maxDepth, m, c)
    ensures m in Visits(nodes, maxDepth, c, false)
    decreases maxDepth - nodes[c].depth
  {
    assert NodeOk(nodes, c, maxDepth);
    if IsLeaf(nodes[c]) {
      UnderLeaf(nodes, maxDepth, m, c);
    } else {
      UnderKid(nodes, maxDepth, m, c);
      var j :| 0 <= j < 8 && nodes[c].children[j] < |nodes| && Under(nodes, maxDepth, m, nodes[c].children[j]);
      assert NodeOk(nodes, nodes[c].children[j], maxDepth);
      VisitsComplete(nodes, maxDepth, nodes[c].children[j], m);
      VisitKidsHas(nodes, maxDepth, c, 8, j, m);
    }
  }

  lemma {:induction false} VisitKidsHas(nodes: seq<Node>, maxDepth: int, c: NodeId, k: int, j: int, m: NodeId)
    requires Structured(nodes, maxDepth) && c < |nodes| && |nodes[c].children| == 8 && 0 <= j < k <= 8
    requires nodes[c].children[j] < |nodes| && m in Visits(nodes, maxDepth, nodes[c].children[j], false)
    ensures m in VisitKids(nodes, maxDepth, c, k)
    decreases k
  {
    if j < k - 1 {
      VisitKidsHas(nodes, maxDepth, c, k - 1, j, m);
    }
  }

  /** No leaf is handed to func twice. */
  lemma {:induction false} VisitsNoDup(nodes: seq<Node>, maxDepth: int, c: NodeId, ignoreSleep: bool)
    requires Structured(nodes, maxDepth) && c < |nodes|
    ensures NoDup(Visits(nodes, maxDepth, c, ignoreSleep))
    decreases maxDepth - nodes[c].depth, 1
  {
    assert NodeOk(nodes, c, maxDepth);
    if |nodes[c].children| == 8 {
      VisitKidsNoDup(nodes, maxDepth, c, 8);
    }
  }

  lemma {:induction false} VisitKidsNoDup(nodes: seq<Node>, maxDepth: int, c: NodeId, k: int)
    requires Structured(nodes, maxDepth) && c < |nodes| && |nodes[c].children| == 8 && 0 <= k <= 8
    ensures NoDup(VisitKids(nodes, maxDepth, c, k))
    decreases maxDepth - nodes[c].depth, 0, k
  {
    assert NodeOk(nodes, c, maxDepth);
    if k > 0 {
      var x := nodes[c].children[k - 1];
      assert NodeOk(nodes, x, maxDepth);
      var a := VisitKids(nodes, maxDepth, c, k - 1);
      var b := Visits(nodes, maxDepth, x, false);
      VisitKidsNoDup(nodes, maxDepth, c, k - 1);
      VisitsNoDup(nodes, maxDepth, x, false);
      forall i, i' | 0 <= i < |a| && 0 <= i' < |b| ensures a[i] != b[i'] {
        if a[i] == b[i'] {
          var j := VisitKidsSound(nodes, maxDepth, c, k - 1, a[i]);
          VisitsSound(nodes, maxDepth, x, false, b[i']);
          UnderOneKid(nodes, maxDepth, a[i], c, j, k - 1);
        }
      }
      NoDupAppend(a, b);
    }
  }

  lemma NoDupAppend<T>(a: seq<T>, b: seq<T>)
    requires NoDup(a) && NoDup(b)
    requires forall i, j :: 0 <= i < |a| && 0 <= j < |b| ==> a[i] != b[j]
    ensures NoDup(a + b)
  {
    var s := a + b;
    forall i, j | 0 <= i < j < |s| ensures s[i] != s[j] {
      if j < |a| {
        assert s[i] == a[i] && s[j] == a[j];
      } else if i >= |a| {
        assert s[i] == b[i - |a|] && s[j] == b[j - |a|];
      } else {
        assert s[i] == a[i] && s[j] == b[j - |a|];
      }
    }
  }

  /**
   * OctTree::OperateOnContents, from the root with the flag at its default:
   * func receives exactly the non-empty leaves of the whole tree, each once,
   * asleep or not.
   */
  lemma VisitsAll(nodes: seq<Node>, maxDepth: int)
    requires Structured(nodes, maxDepth)
    ensures NoDup(Visits(nodes, maxDepth, 0, false))
    ensures forall m :: m in Visits(nodes, maxDepth, 0, false) <==> Handed(nodes, m)
  {
    VisitsNoDup(nodes, maxDepth, 0, false);
    forall m | m in Visits(nodes, maxDepth, 0, false) ensures Handed(nodes, m) {
      VisitsSound(nodes, maxDepth, 0, false, m);
    }
    forall m | Handed(nodes, m) ensures m in Visits(nodes, maxDepth, 0, false) {
      UnderRoot(nodes, maxDepth, m);
      VisitsComplete(nodes, maxDepth, 0, m);
    }
  }

  // ------------------------------------------------------------------ Clear

  /** OctTreeNode::Clear on one node: a leaf holding entries is emptied and put to sleep; any other node is left. */
  function Wiped(n: Node): (r: Node)
    ensures r.contents == [] || r == n
    ensures r.depth == n.depth && r.position == n.position && r.size == n.size
    ensures r.parent == n.parent && r.children == n.children
    ensures IsLeaf(n) && n.contents != [] ==> r.contents == [] && r.sleep
  {
    if IsLeaf(n) && n.contents != [] then n.(contents := [], sleep := true) else n
  }

  /** b is a with only contents and sleep flags changed. */
  ghost predicate SameShape(a: seq<Node>, b: seq<Node>)
  {
    |a| == |b| && forall m :: 0 <= m < |a| ==> b[m] == a[m].(contents := b[m].contents, sleep := b[m].sleep)
  }

  lemma SameShapeTrans(a: seq<Node>, b: seq<Node>, c: seq<Node>)
    requires SameShape(a, b) && SameShape(b, c)
    ensures SameShape(a, c)
  {
    forall m | 0 <= m < |a| ensures c[m] == a[m].(contents := c[m].contents, sleep := c[m].sleep) {
      assert b[m] == a[m].(contents := b[m].contents, sleep := b[m].sleep);
      assert c[m] == b[m].(contents := c[m].contents, sleep := c[m].sleep);
    }
  }

  lemma {:induction false} UpSameShape(a: seq<Node>, b: seq<Node>, maxDepth: int, m: NodeId, d: int)
    requires Structured(a, maxDepth) && Structured(b, maxDepth) && SameShape(a, b) && m < |a| && 1 <= d <= a[m].depth
    ensures Up(b, maxDepth, m, d) == Up(a, maxDepth, m, d)
    decreases a[m].depth
  {
    assert b[m] == a[m].(contents := b[m].contents, sleep := b[m].sleep);
    if a[m].depth != d {
      assert NodeOk(a, m, maxDepth);
      UpSameShape(a, b, maxDepth, a[m].parent.value, d);
    }
  }

  /** m lies under one of the first k children of c. */
  ghost predicate UnderKids(nodes: seq<Node>, maxDepth: int, c: NodeId, k: int, m: NodeId)
    requires Structured(nodes, maxDepth) && c < |nodes| && |nodes[c].children| == 8 && 0 <= k <= 8 && m < |nodes|
  {
    exists j :: 0 <= j < k && nodes[c].children[j] < |nodes| && Under(nodes, maxDepth, m, nodes[c].children[j])
  }

  /** Clearing a node wipes its subtree and leaves every other node as it was. */
  ghost predicate ClearedUnder(a: seq<Node>, b: seq<Node>, maxDepth: int, c: NodeId)
    requires Structured(a, maxDepth) && c < |a|
  {
    |b| == |a|
    && forall m :: 0 <= m < |a| ==> b[m] == if Under(a, maxDepth, m, c) then Wiped(a[m]) else a[m]
  }

  /** The loop of OctTreeNode::Clear after k children: their subtrees are wiped, nothing else changed. */
  ghost predicate ClearedKids(a: seq<Node>, b: seq<Node>, maxDepth: int, c: NodeId, k: int)
    requires Structured(a, maxDepth) && c < |a| && |a[c].children| == 8 && 0 <= k <= 8
  {
    |b| == |a|
    && forall m :: 0 <= m < |a| ==> b[m] == if UnderKids(a, maxDepth, c, k, m) then Wiped(a[m]) else a[m]
  }

  lemma ClearedKidsStart(a: seq<Node>, maxDepth: int, c: NodeId)
    requires Structured(a, maxDepth) && c < |a| && |a[c].children| == 8
    ensures ClearedKids(a, a, maxDepth, c, 0)
  {
  }

  /** Clearing child k after the first k children: the first k + 1 are wiped. */
  lemma ClearedKidsStep(a: seq<Node>, b: seq<Node>, b': seq<Node>, maxDepth: int, c: NodeId, k: int)
    requires Structured(a, maxDepth) && Structured(b, maxDepth) && SameShape(a, b)
    requires c < |a| && |a[c].children| == 8 && 0 <= k < 8 && a[c].children[k] < |a|
    requires ClearedKids(a, b, maxDepth, c, k) && ClearedUnder(b, b', maxDepth, a[c].children[k])
    ensures ClearedKids(a, b', maxDepth, c, k + 1)
  {
    var x := a[c].children[k];
    assert NodeOk(a, x, maxDepth);
    forall m | 0 <= m < |a| ensures b'[m] == if UnderKids(a, maxDepth, c, k + 1, m) then Wiped(a[m]) else a[m] {
      assert b[m] == a[m].(contents := b[m].contents, sleep := b[m].sleep);
      if m < |b| && a[x].depth <= a[m].depth {
        UpSameShape(a, b, maxDepth, m, a[x].depth);
      }
      if Under(a, maxDepth, m, x) {
        assert UnderKids(a, maxDepth, c, k + 1, m);
      } else if UnderKids(a, maxDepth, c, k + 1, m) {
        var j :| 0 <= j < k + 1 && a[c].children[j] < |a| && Under(a, maxDepth, m, a[c].children[j]);
        assert UnderKids(a, maxDepth, c, k, m);
      } else {
        assert !UnderKids(a, maxDepth, c, k, m);
      }
    }
  }

  /** After all eight children, the whole subtree of c is wiped (c itself, internal, is unchanged by Wiped). */
  lemma ClearedKidsEnd(a: seq<Node>, b: seq<Node>, maxDepth: int, c: NodeId)
    requires Structured(a, maxDepth) && c < |a| && |a[c].children| == 8
    requires ClearedKids(a, b, maxDepth, c, 8)
    ensures ClearedUnder(a, b, maxDepth, c)
  {
    forall m | 0 <= m < |a| ensures b[m] == if Under(a, maxDepth, m, c) then Wiped(a[m]) else a[m] {
      if UnderKids(a, maxDepth, c, 8, m) {
        var j :| 0 <= j < 8 && a[c].children[j] < |a| && Under(a, maxDepth, m, a[c].children[j]);
        UnderFromKid(a, maxDepth, m, c, j);
      } else if Under(a, maxDepth, m, c) && m != c {
        UnderKid(a, maxDepth, m, c);
      }
    }
  }

  /** A leaf's subtree is the leaf: clearing it is wiping it. */
  lemma ClearedLeaf(a: seq<Node>, maxDepth: int, c: NodeId)
    requires Structured(a, maxDepth) && c < |a| && IsLeaf(a[c])
    ensures ClearedUnder(a, a[c := Wiped(a[c])], maxDepth, c)
  {
    forall m | 0 <= m < |a| && Under(a, maxDepth, m, c) ensures m == c {
      UnderLeaf(a, maxDepth, m, c);
    }
  }

  /** OctTree::Clear, from the root: every leaf that held entries is emptied and asleep, and the node structure is kept. */
  lemma ClearedAll(a: seq<Node>, b: seq<Node>, maxDepth: int)
    requires Structured(a, maxDepth) && ClearedUnder(a, b, maxDepth, 0)
    ensures |b| == |a| && forall m :: 0 <= m < |a| ==> b[m] == Wiped(a[m])
    ensures forall m :: 0 <= m < |b| && IsLeaf(b[m]) ==> b[m].contents == []
  {
    forall m | 0 <= m < |a| ensures b[m] == Wiped(a[m]) {
      UnderRoot(a, maxDepth, m);
    }
  }

  // ------------------------------------------------------------ node count

  /** How many entries of o the first n nodes of the arena hold. */
  ghost function EntriesIn(nodes: seq<Node>, o: ObjId, n: nat): nat
    requires n <= |nodes|
  {
    if n == 0 then 0 else EntriesIn(nodes, o, n - 1) + CountIn(nodes[n - 1].contents, o)
  }

  /** How many references a list makes to the nodes below n. */
  ghost function RefsBelow(l: seq<NodeId>, n: nat): nat
  {
    if n == 0 then 0 else RefsBelow(l, n - 1) + multiset(l)[n - 1]
  }

  lemma {:induction false} RefsBelowSnoc(l: seq<NodeId>, x: NodeId, n: nat)
    ensures RefsBelow(l + [x], n) == RefsBelow(l, n) + (if x < n then 1 else 0)
  {
    if n > 0 {
      RefsBelowSnoc(l, x, n - 1);
    }
  }

  /** A list naming only nodes below n refers to them exactly its length many times. */
  lemma {:induction false} RefsBelowAll(l: seq<NodeId>, n: nat)
    requires forall k :: 0 <= k < |l| ==> l[k] < n
    ensures RefsBelow(l, n) == |l|
  {
    if l == [] {
      RefsBelowZero(n);
    } else {
      var l' := l[..|l| - 1];
      assert l == l' + [l[|l| - 1]];
      RefsBelowAll(l', n);
      RefsBelowSnoc(l', l[|l| - 1], n);
    }
  }

  lemma {:induction false} RefsBelowZero(n: nat)
    ensures RefsBelow([], n) == 0
  {
    if n > 0 {
      RefsBelowZero(n - 1);
    }
  }

  /**
   * GameObject::GetNodeCount, the length of o's owning list, is the number
   * of entries of o in the whole tree whenever the lists and the tree agree.
   */
  lemma NodeCountIsEntries(nodes: seq<Node>, own: map<ObjId, seq<NodeId>>, maxDepth: int, o: ObjId)
    ensures Structured(nodes, maxDepth) && InRange(nodes, own) && SymFrom(nodes, own, 1) ==>
              |Own(own, o)| == EntriesIn(nodes, o, |nodes|)
  {
    if Structured(nodes, maxDepth) && InRange(nodes, own) && SymFrom(nodes, own, 1) {
      RefsBelowAll(Own(own, o), |nodes|);
      forall m | 0 <= m < |nodes| ensures multiset(Own(own, o))[m] == CountIn(nodes[m].contents, o) {
        assert NodeOk(nodes, m, maxDepth);
        assert Balanced(nodes, own, o, m);
      }
      EntriesAgree(nodes, Own(own, o), o, |nodes|);
    }
  }

  lemma RefsBelowStep(l: seq<NodeId>, k: nat)
    ensures RefsBelow(l, k + 1) == RefsBelow(l, k) + multiset(l)[k]
  {
  }

  lemma EntriesInStep(nodes: seq<Node>, o: ObjId, k: nat)
    requires k < |nodes|
    ensures EntriesIn(nodes, o, k + 1) == EntriesIn(nodes, o, k) + CountIn(nodes[k].contents, o)
  {
  }

  lemma {:induction false} EntriesAgree(nodes: seq<Node>, l: seq<NodeId>, o: ObjId, n: nat)
    requires n <= |nodes| && forall m :: 0 <= m < n ==> multiset(l)[m] == CountIn(nodes[m].contents, o)
    ensures RefsBelow(l, n) == EntriesIn(nodes, o, n)
    decreases n
  {
    if n > 0 {
      var k := n - 1;
      EntriesAgree(nodes, l, o, k);
      RefsBelowStep(l, k);
      EntriesInStep(nodes, o, k);
      assert multiset(l)[k] == CountIn(nodes[k].contents, o);
    }
  }
}
