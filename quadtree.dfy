/**
 * QuadTree<T> and QuadTreeNode<T>: a depth-bounded quadtree over the x/z
 * plane. A node owns its four children outright and no member reads its
 * parent link, so a node is a value here: each recursive QuadTreeNode member
 * takes a node and returns it updated, with the source's loops, and is proved
 * equal to a function that states its result.
 */
module QuadTrees {
  import opened Common
  import opened Collision

  datatype Vec2 = Vec2(x: real, y: real)

  /** QuadTreeEntry: an object with the box it was inserted with, and whether it was asleep. */
  datatype QEntry = QEntry(obj: ObjId, pos: Vec3, size: Vec3, slept: bool)

  /** QuadTreeNode: a square (centre, half-size) of the x/z plane, with entries if a leaf, or four children. */
  datatype QNode = QNode(position: Vec2, size: Vec2, sleep: bool, contents: seq<QEntry>, children: seq<QNode>)

  /** A node as its constructor makes it: no children, no entries, asleep. */
  function Fresh(position: Vec2, size: Vec2): QNode
  {
    QNode(position, size, true, [], [])
  }

  predicate IsLeaf(n: QNode) { |n.children| == 0 }

  /** |d| < s, written as two bounds. */
  predicate Within(d: real, s: real) { -s < d < s }

  /**
   * The test Insert applies: the entry's box against the node's square,
   * 1000 high on either side of y = 0 (AABBTest, by OverlapsIsAABBTest).
   */
  predicate Overlaps(e: QEntry, n: QNode)
  {
    Within(n.position.x - e.pos.x, e.size.x + n.size.x)
    && Within(0.0 - e.pos.y, e.size.y + 1000.0)
    && Within(n.position.y - e.pos.z, e.size.z + n.size.y)
  }

  lemma OverlapsIsAABBTest(e: QEntry, n: QNode)
    ensures Overlaps(e, n) <==> AABBTest(e.pos, Vec3(n.position.x, 0.0, n.position.y), e.size, Vec3(n.size.x, 1000.0, n.size.y))
  {
  }

  function Half(s: Vec2): Vec2 { Vec2(s.x / 2.0, s.y / 2.0) }

  /**
   * The centre of child k, in the order Split creates the children: the
   * node's centre moved by half its half-size, left for even k and up for
   * k < 2.
   */
  function ChildPos(n: QNode, k: int): Vec2
  {
    var h := Half(n.size);
    Vec2(if k % 2 == 0 then n.position.x - h.x else n.position.x + h.x,
         if k < 2 then n.position.y + h.y else n.position.y - h.y)
  }

  /** QuadTreeNode::Split: the four fresh children. */
  function SplitKids(n: QNode): seq<QNode>
  {
    seq(4, k => Fresh(ChildPos(n, k), Half(n.size)))
  }

  /**
   * The shape every node keeps: a leaf is asleep exactly when all its
   * entries are; an internal node has four children, holds nothing, and is
   * asleep.
   */
  ghost predicate Wf(n: QNode)
    decreases n
  {
    if IsLeaf(n) then
      n.sleep <==> forall i :: 0 <= i < |n.contents| ==> n.contents[i].slept
    else
      |n.children| == 4 && n.contents == [] && n.sleep && forall k :: 0 <= k < 4 ==> Wf(n.children[k])
  }

  /** The geometry every node keeps: a leaf's entries overlap it; children sit where Split puts them. */
  ghost predicate Placed(n: QNode)
    decreases n
  {
    if IsLeaf(n) then
      forall i :: 0 <= i < |n.contents| ==> Overlaps(n.contents[i], n)
    else
      |n.children| == 4
      && (forall k :: 0 <= k < 4 ==> n.children[k].position == ChildPos(n, k) && n.children[k].size == Half(n.size))
      && (forall k :: 0 <= k < 4 ==> Placed(n.children[k]))
  }

  /** Splits stay within the depth budget: an internal node has budget left, its children one less. */
  ghost predicate Fits(n: QNode, depthLeft: int)
    decreases n
  {
    IsLeaf(n) || (|n.children| == 4 && depthLeft > 0 && forall k :: 0 <= k < 4 ==> Fits(n.children[k], depthLeft - 1))
  }

  /** Entry x sits in a leaf of the subtree of n. */
  ghost predicate Held(n: QNode, x: QEntry)
    decreases n
  {
    if IsLeaf(n) then x in n.contents else exists k :: 0 <= k < |n.children| && Held(n.children[k], x)
  }

  /** An entry with positive extent on the plane (the only kind the no-loss lemmas speak of). */
  predicate Solid(x: QEntry) { x.size.x > 0.0 && x.size.z > 0.0 }

  // ------------------------------------------------------------------ Insert

  /**
   * QuadTreeNode::Insert(e, depthLeft, maxSize): nothing unless e overlaps
   * n; an internal node passes e to its four children with one level less;
   * a leaf appends e (an awake entry wakes it) and, once it holds more than
   * maxSize entries with budget left, splits and re-inserts every entry, in
   * order, into each child with one level less, ending empty and asleep.
   */
  function Inserted(n: QNode, e: QEntry, depthLeft: int, maxSize: int): (r: QNode)
    requires Fits(n, depthLeft)
    ensures Fits(r, depthLeft) && r.position == n.position && r.size == n.size
    decreases depthLeft, 0, 0
  {
    if !Overlaps(e, n) then n
    else if !IsLeaf(n) then
      var ks := n.children;
      n.(children := seq(4, k requires 0 <= k < 4 => Inserted(ks[k], e, depthLeft - 1, maxSize)))
    else
      var cs := n.contents + [e];
      if |cs| > maxSize && depthLeft > 0 then
        QNode(n.position, n.size, true, [], Redistribute(SplitKids(n), cs, depthLeft - 1, maxSize))
      else
        n.(contents := cs, sleep := n.sleep && e.slept)
  }

  /** The entries es, in order, inserted into n. */
  function InsertSeq(n: QNode, es: seq<QEntry>, depthLeft: int, maxSize: int): (r: QNode)
    requires Fits(n, depthLeft)
    ensures Fits(r, depthLeft) && r.position == n.position && r.size == n.size
    decreases depthLeft, 1, |es|
  {
    if es == [] then n else InsertSeq(Inserted(n, es[0], depthLeft, maxSize), es[1..], depthLeft, maxSize)
  }

  /** The loop of the split: every entry of es, in order, into each of the four children. */
  function Redistribute(ks: seq<QNode>, es: seq<QEntry>, depthLeft: int, maxSize: int): (r: seq<QNode>)
    requires |ks| == 4 && forall k :: 0 <= k < 4 ==> Fits(ks[k], depthLeft)
    ensures |r| == 4 && forall k :: 0 <= k < 4 ==> Fits(r[k], depthLeft)
    ensures forall k :: 0 <= k < 4 ==> r[k].position == ks[k].position && r[k].size == ks[k].size
    decreases depthLeft, 2, 0
  {
    seq(4, k requires 0 <= k < 4 => InsertSeq(ks[k], es, depthLeft, maxSize))
  }

  /** Insertion keeps the sleep flags right: a leaf sleeps exactly when all its entries slept. */
  lemma {:induction false} InsertedWf(n: QNode, e: QEntry, depthLeft: int, maxSize: int)
    requires Fits(n, depthLeft) && Wf(n)
    ensures Wf(Inserted(n, e, depthLeft, maxSize))
    decreases depthLeft, 0, 0
  {
    var r := Inserted(n, e, depthLeft, maxSize);
    if !Overlaps(e, n) {
    } else if !IsLeaf(n) {
      forall k | 0 <= k < 4 ensures Wf(r.children[k]) {
        InsertedWf(n.children[k], e, depthLeft - 1, maxSize);
      }
    } else {
      var cs := n.contents + [e];
      if |cs| > maxSize && depthLeft > 0 {
        var ks := Redistribute(SplitKids(n), cs, depthLeft - 1, maxSize);
        assert r.children == ks;
        forall k | 0 <= k < 4 ensures Wf(ks[k]) {
          InsertSeqWf(SplitKids(n)[k], cs, depthLeft - 1, maxSize);
        }
      } else {
        assert forall i :: 0 <= i < |n.contents| ==> cs[i] == n.contents[i];
        assert cs[|n.contents|] == e;
      }
    }
  }

  lemma {:induction false} InsertSeqWf(n: QNode, es: seq<QEntry>, depthLeft: int, maxSize: int)
    requires Fits(n, depthLeft) && Wf(n)
    ensures Wf(InsertSeq(n, es, depthLeft, maxSize))
    decreases depthLeft, 1, |es|
  {
    if es != [] {
      InsertedWf(n, es[0], depthLeft, maxSize);
      InsertSeqWf(Inserted(n, es[0], depthLeft, maxSize), es[1..], depthLeft, maxSize);
    }
  }

  /** Insertion keeps the geometry: an entry lands only in leaves it overlaps, children where Split put them. */
  lemma {:induction false} InsertedPlaced(n: QNode, e: QEntry, depthLeft: int, maxSize: int)
    requires Fits(n, depthLeft) && Placed(n)
    ensures Placed(Inserted(n, e, depthLeft, maxSize))
    decreases depthLeft, 0, 0
  {
    var r := Inserted(n, e, depthLeft, maxSize);
    if !Overlaps(e, n) {
    } else if !IsLeaf(n) {
      forall k | 0 <= k < 4 ensures Placed(r.children[k]) {
        InsertedPlaced(n.children[k], e, depthLeft - 1, maxSize);
      }
    } else {
      var cs := n.contents + [e];
      if |cs| > maxSize && depthLeft > 0 {
        var ks := Redistribute(SplitKids(n), cs, depthLeft - 1, maxSize);
        assert r.children == ks;
        forall k | 0 <= k < 4 ensures Placed(ks[k]) {
          InsertSeqPlaced(SplitKids(n)[k], cs, depthLeft - 1, maxSize);
        }
      } else {
        assert forall i :: 0 <= i < |n.contents| ==> cs[i] == n.contents[i];
        assert cs[|n.contents|] == e;
      }
    }
  }

  lemma {:induction false} InsertSeqPlaced(n: QNode, es: seq<QEntry>, depthLeft: int, maxSize: int)
    requires Fits(n, depthLeft) && Placed(n)
    ensures Placed(InsertSeq(n, es, depthLeft, maxSize))
    decreases depthLeft, 1, |es|
  {
    if es != [] {
      InsertedPlaced(n, es[0], depthLeft, maxSize);
      InsertSeqPlaced(Inserted(n, es[0], depthLeft, maxSize), es[1..], depthLeft, maxSize);
    }
  }

  lemma {:induction false} InsertSeqSnoc(n: QNode, es: seq<QEntry>, e: QEntry, depthLeft: int, maxSize: int)
    requires Fits(n, depthLeft)
    ensures InsertSeq(n, es + [e], depthLeft, maxSize) == Inserted(InsertSeq(n, es, depthLeft, maxSize), e, depthLeft, maxSize)
    decreases |es|
  {
    if es == [] {
      assert [e][1..] == [];
    } else {
      assert (es + [e])[1..] == es[1..] + [e];
      InsertSeqSnoc(Inserted(n, es[0], depthLeft, maxSize), es[1..], e, depthLeft, maxSize);
    }
  }

  /** QuadTreeNode::Insert, with the loops of the source. */
  method NodeInsert(n: QNode, e: QEntry, depthLeft: int, maxSize: int) returns (r: QNode)
    requires Fits(n, depthLeft)
    ensures r == Inserted(n, e, depthLeft, maxSize)
    decreases depthLeft, 0
  {
    if !Overlaps(e, n) {
      return n;
    }
    if !IsLeaf(n) {
      var ks := n.children;
      for i := 0 to 4
        invariant |ks| == 4
        invariant forall k :: 0 <= k < i ==> ks[k] == Inserted(n.children[k], e, depthLeft - 1, maxSize)
        invariant forall k :: i <= k < 4 ==> ks[k] == n.children[k]
      {
        var c := NodeInsert(ks[i], e, depthLeft - 1, maxSize);
        ks := ks[i := c];
      }
      r := n.(children := ks);
    } else {
      r := n.(contents := n.contents + [e]);
      if !e.slept {
        r := r.(sleep := false);
      }
      if |r.contents| > maxSize && depthLeft > 0 {
        var ks := SplitKids(r);
        ks := NodeRedistribute(ks, r.contents, depthLeft - 1, maxSize);
        r := QNode(r.position, r.size, true, [], ks);
      }
    }
  }

  /** The loop of QuadTreeNode::Insert that follows Split: each entry, in order, into each of the four children. */
  method NodeRedistribute(ks0: seq<QNode>, es: seq<QEntry>, depthLeft: int, maxSize: int) returns (ks: seq<QNode>)
    requires |ks0| == 4 && forall k :: 0 <= k < 4 ==> Fits(ks0[k], depthLeft)
    ensures ks == Redistribute(ks0, es, depthLeft, maxSize)
    decreases depthLeft, 1
  {
    ks := ks0;
    for i := 0 to |es|
      invariant |ks| == 4
      invariant forall k :: 0 <= k < 4 ==> ks[k] == InsertSeq(ks0[k], es[..i], depthLeft, maxSize)
    {
      assert es[..i + 1] == es[..i] + [es[i]];
      for j := 0 to 4
        invariant |ks| == 4
        invariant forall k :: 0 <= k < j ==> ks[k] == InsertSeq(ks0[k], es[..i + 1], depthLeft, maxSize)
        invariant forall k :: j <= k < 4 ==> ks[k] == InsertSeq(ks0[k], es[..i], depthLeft, maxSize)
      {
        InsertSeqSnoc(ks0[j], es[..i], es[i], depthLeft, maxSize);
        var c := NodeInsert(ks[j], es[i], depthLeft, maxSize);
        ks := ks[j := c];
      }
    }
    assert es[..|es|] == es;
  }

  // ------------------------------------------------------------ no entry lost

  /** One axis of the split: a box overlapping an interval overlaps the half on its side of the centre. */
  lemma AxisSplit(a: real, ha: real, p: real, s: real)
    requires Within(p - a, ha + s) && ha > 0.0
    ensures a >= p ==> Within((p + s / 2.0) - a, ha + s / 2.0)
    ensures a < p ==> Within((p - s / 2.0) - a, ha + s / 2.0)
  {
  }

  /** An entry of positive extent that overlaps a node overlaps at least one of the children Split makes. */
  lemma SplitCovers(n: QNode, x: QEntry) returns (k: int)
    requires Overlaps(x, n) && Solid(x)
    ensures 0 <= k < 4 && Overlaps(x, Fresh(ChildPos(n, k), Half(n.size)))
  {
    AxisSplit(x.pos.x, x.size.x, n.position.x, n.size.x);
    AxisSplit(x.pos.z, x.size.z, n.position.y, n.size.y);
    var right := x.pos.x >= n.position.x;
    var up := x.pos.z >= n.position.y;
    k := (if up then 0 else 2) + (if right then 1 else 0);
  }

  /**
   * Whatever the tree held before an insertion it still holds after it, even
   * across a split (entries of positive extent).
   */
  lemma {:induction false} InsertKeeps(n: QNode, e: QEntry, depthLeft: int, maxSize: int, x: QEntry)
    requires Fits(n, depthLeft) && Placed(n) && Held(n, x) && Solid(x)
    ensures Held(Inserted(n, e, depthLeft, maxSize), x)
    decreases depthLeft, 0, 0
  {
    if !Overlaps(e, n) {
    } else if !IsLeaf(n) {
      var k :| 0 <= k < |n.children| && Held(n.children[k], x);
      InsertKeeps(n.children[k], e, depthLeft - 1, maxSize, x);
      assert Inserted(n, e, depthLeft, maxSize).children[k] == Inserted(n.children[k], e, depthLeft - 1, maxSize);
    } else {
      var cs := n.contents + [e];
      assert x in cs;
      if |cs| > maxSize && depthLeft > 0 {
        var i :| 0 <= i < |n.contents| && n.contents[i] == x;
        var k := SplitCovers(n, x);
        InsertSeqHolds(SplitKids(n)[k], cs, depthLeft - 1, maxSize, x);
        assert Inserted(n, e, depthLeft, maxSize).children[k] == InsertSeq(SplitKids(n)[k], cs, depthLeft - 1, maxSize);
      }
    }
  }

  /** An entry of positive extent that overlaps the node is held after its insertion. */
  lemma {:induction false} InsertHolds(n: QNode, e: QEntry, depthLeft: int, maxSize: int)
    requires Fits(n, depthLeft) && Placed(n) && Overlaps(e, n) && Solid(e)
    ensures Held(Inserted(n, e, depthLeft, maxSize), e)
    decreases depthLeft, 0, 0
  {
    if !IsLeaf(n) {
      var k := SplitCovers(n, e);
      assert n.children[k].position == ChildPos(n, k) && n.children[k].size == Half(n.size);
      InsertHolds(n.children[k], e, depthLeft - 1, maxSize);
      assert Inserted(n, e, depthLeft, maxSize).children[k] == Inserted(n.children[k], e, depthLeft - 1, maxSize);
    } else {
      var cs := n.contents + [e];
      if |cs| > maxSize && depthLeft > 0 {
        var k := SplitCovers(n, e);
        InsertSeqHolds(SplitKids(n)[k], cs, depthLeft - 1, maxSize, e);
        assert Inserted(n, e, depthLeft, maxSize).children[k] == InsertSeq(SplitKids(n)[k], cs, depthLeft - 1, maxSize);
      }
    }
  }

  lemma {:induction false} InsertSeqHolds(n: QNode, es: seq<QEntry>, depthLeft: int, maxSize: int, x: QEntry)
    requires Fits(n, depthLeft) && Placed(n) && x in es && Overlaps(x, n) && Solid(x)
    ensures Held(InsertSeq(n, es, depthLeft, maxSize), x)
    decreases depthLeft, 1, |es|
  {
    var n' := Inserted(n, es[0], depthLeft, maxSize);
    InsertedPlaced(n, es[0], depthLeft, maxSize);
    if es[0] == x {
      InsertHolds(n, x, depthLeft, maxSize);
      InsertSeqKeeps(n', es[1..], depthLeft, maxSize, x);
    } else {
      assert x in es[1..];
      InsertSeqHolds(n', es[1..], depthLeft, maxSize, x);
    }
  }

  lemma {:induction false} InsertSeqKeeps(n: QNode, es: seq<QEntry>, depthLeft: int, maxSize: int, x: QEntry)
    requires Fits(n, depthLeft) && Placed(n) && Held(n, x) && Solid(x)
    ensures Held(InsertSeq(n, es, depthLeft, maxSize), x)
    decreases depthLeft, 1, |es|
  {
    if es != [] {
      InsertKeeps(n, es[0], depthLeft, maxSize, x);
      InsertedPlaced(n, es[0], depthLeft, maxSize);
      InsertSeqKeeps(Inserted(n, es[0], depthLeft, maxSize), es[1..], depthLeft, maxSize, x);
    }
  }

  // ------------------------------------------------------- OperateOnContents

  /**
   * The contents lists QuadTreeNode::OperateOnContents hands to func, in call
   * order: the children in order; a leaf when it holds entries and is awake.
   */
  ghost function Visits(n: QNode): seq<seq<QEntry>>
    requires Wf(n)
    decreases n
  {
    if !IsLeaf(n) then
      Visits(n.children[0]) + Visits(n.children[1]) + Visits(n.children[2]) + Visits(n.children[3])
    else if n.contents != [] && !n.sleep then [n.contents]
    else []
  }

  /** Only a non-empty list with an awake entry is handed to func. */
  lemma {:induction false} VisitsSound(n: QNode, i: int)
    requires Wf(n) && 0 <= i < |Visits(n)|
    ensures Visits(n)[i] != [] && exists j :: 0 <= j < |Visits(n)[i]| && !Visits(n)[i][j].slept
    decreases n
  {
    if !IsLeaf(n) {
      var a, b, c, d := Visits(n.children[0]), Visits(n.children[1]), Visits(n.children[2]), Visits(n.children[3]);
      if i < |a| {
        VisitsSound(n.children[0], i);
      } else if i < |a| + |b| {
        VisitsSound(n.children[1], i - |a|);
      } else if i < |a| + |b| + |c| {
        VisitsSound(n.children[2], i - |a| - |b|);
      } else {
        VisitsSound(n.children[3], i - |a| - |b| - |c|);
      }
    }
  }

  /** Every awake entry in the tree is in a list handed to func: the broadphase skips no awake object. */
  lemma {:induction false} VisitsComplete(n: QNode, x: QEntry) returns (i: int)
    requires Wf(n) && Held(n, x) && !x.slept
    ensures 0 <= i < |Visits(n)| && x in Visits(n)[i]
    decreases n
  {
    if IsLeaf(n) {
      i := 0;
    } else {
      var a, b, c, d := Visits(n.children[0]), Visits(n.children[1]), Visits(n.children[2]), Visits(n.children[3]);
      assert Visits(n) == a + b + c + d;
      var k :| 0 <= k < 4 && Held(n.children[k], x);
      var j := VisitsComplete(n.children[k], x);
      i := InFour(a, b, c, d, k, j);
    }
  }

  /** Where the j-th element of the k-th of four sequences lands in their concatenation. */
  lemma InFour<T>(a: seq<T>, b: seq<T>, c: seq<T>, d: seq<T>, k: int, j: int) returns (i: int)
    requires 0 <= k < 4 && 0 <= j < |if k == 0 then a else if k == 1 then b else if k == 2 then c else d|
    ensures 0 <= i < |a + b + c + d|
    ensures (a + b + c + d)[i] == (if k == 0 then a else if k == 1 then b else if k == 2 then c else d)[j]
  {
    if k == 0 {
      i := j;
    } else if k == 1 {
      i := |a| + j;
    } else if k == 2 {
      i := |a| + |b| + j;
    } else {
      i := |a| + |b| + |c| + j;
    }
  }

  /** QuadTreeNode::OperateOnContents, with the loop of the source. */
  method NodeOperateOnContents(n: QNode) returns (lists: seq<seq<QEntry>>)
    requires Wf(n)
    ensures lists == Visits(n)
    decreases n
  {
    if !IsLeaf(n) {
      lists := [];
      for i := 0 to 4
        invariant lists == if i == 0 then [] else if i == 1 then Visits(n.children[0])
                           else if i == 2 then Visits(n.children[0]) + Visits(n.children[1])
                           else if i == 3 then Visits(n.children[0]) + Visits(n.children[1]) + Visits(n.children[2])
                           else Visits(n)
      {
        var l := NodeOperateOnContents(n.children[i]);
        lists := lists + l;
      }
    } else if n.contents != [] && !n.sleep {
      lists := [n.contents];
    } else {
      lists := [];
    }
  }

  // ------------------------------------------------------------------ Clear

  /** QuadTreeNode::Clear: every leaf holding entries is emptied and put to sleep; the nodes stay. */
  function Cleared(n: QNode): (r: QNode)
    requires Wf(n)
    ensures Wf(r) && r.position == n.position && r.size == n.size && |r.children| == |n.children|
    decreases n
  {
    if !IsLeaf(n) then
      var ks := n.children;
      n.(children := seq(4, k requires 0 <= k < 4 => Cleared(ks[k])))
    else if n.contents != [] then n.(contents := [], sleep := true)
    else n
  }

  /** Clear keeps the depth budget: it empties leaves and never adds or removes a node. */
  lemma {:induction false} ClearedFits(n: QNode, depthLeft: int)
    requires Wf(n) && Fits(n, depthLeft)
    ensures Fits(Cleared(n), depthLeft)
    decreases n
  {
    if !IsLeaf(n) {
      var ks := n.children;
      ClearedFits(ks[0], depthLeft - 1);
      ClearedFits(ks[1], depthLeft - 1);
      ClearedFits(ks[2], depthLeft - 1);
      ClearedFits(ks[3], depthLeft - 1);
    }
  }

  /** Clear keeps the geometry: nodes stay where they were. */
  lemma {:induction false} ClearedPlaced(n: QNode)
    requires Wf(n) && Placed(n)
    ensures Placed(Cleared(n))
    decreases n
  {
    if !IsLeaf(n) {
      var r := Cleared(n);
      forall k | 0 <= k < 4 ensures Placed(r.children[k]) && r.children[k].position == ChildPos(r, k) {
        ClearedPlaced(n.children[k]);
      }
    }
  }

  /** After Clear the tree holds no entry at all. */
  lemma {:induction false} ClearedEmpty(n: QNode, x: QEntry)
    requires Wf(n)
    ensures !Held(Cleared(n), x)
    decreases n
  {
    if !IsLeaf(n) {
      var r := Cleared(n);
      forall k | 0 <= k < 4 ensures !Held(r.children[k], x) {
        ClearedEmpty(n.children[k], x);
      }
    } else {
      assert Cleared(n).contents == [];
    }
  }

  /** QuadTreeNode::Clear, with the loop of the source. */
  method NodeClear(n: QNode) returns (r: QNode)
    requires Wf(n)
    ensures r == Cleared(n)
    decreases n
  {
    if !IsLeaf(n) {
      var ks := n.children;
      for i := 0 to 4
        invariant |ks| == 4
        invariant forall k :: 0 <= k < i ==> ks[k] == Cleared(n.children[k])
        invariant forall k :: i <= k < 4 ==> ks[k] == n.children[k]
      {
        var c := NodeClear(ks[i]);
        ks := ks[i := c];
      }
      r := n.(children := ks);
    } else if n.contents != [] {
      r := n.(contents := [], sleep := true);
    } else {
      r := n;
    }
  }

  // ---------------------------------------------------------------- QuadTree

  class QuadTree {
    var root: QNode
    const maxDepth: int
    const maxSize: int

    ghost predicate Valid()
      reads this
    {
      Wf(root) && Placed(root) && Fits(root, maxDepth)
    }

    /** The root at the origin with the given half-size (the source's defaults are (1024, 1024), 6 and 5). */
    constructor (size: Vec2, maxDepth: int, maxSize: int)
      ensures Valid() && root == Fresh(Vec2(0.0, 0.0), size)
      ensures this.maxDepth == maxDepth && this.maxSize == maxSize
    {
      root := Fresh(Vec2(0.0, 0.0), size);
      this.maxDepth := maxDepth;
      this.maxSize := maxSize;
    }

    /**
     * QuadTree::Insert: the root's insertion with the whole depth budget
     * (slept defaults to false in the source). Nothing held is lost, and the
     * new entry is held when it overlaps the root.
     */
    method Insert(o: ObjId, pos: Vec3, size: Vec3, slept: bool)
      requires Valid()
      modifies this`root
      ensures Valid() && root == Inserted(old(root), QEntry(o, pos, size, slept), maxDepth, maxSize)
      ensures !Overlaps(QEntry(o, pos, size, slept), old(root)) ==> root == old(root)
      ensures forall x :: Held(old(root), x) && Solid(x) ==> Held(root, x)
      ensures Overlaps(QEntry(o, pos, size, slept), old(root)) && Solid(QEntry(o, pos, size, slept)) ==>
                Held(root, QEntry(o, pos, size, slept))
    {
      var e := QEntry(o, pos, size, slept);
      ghost var r0 := root;
      root := NodeInsert(root, e, maxDepth, maxSize);
      InsertedWf(r0, e, maxDepth, maxSize);
      InsertedPlaced(r0, e, maxDepth, maxSize);
      forall x | Held(r0, x) && Solid(x) ensures Held(root, x) {
        InsertKeeps(r0, e, maxDepth, maxSize, x);
      }
      if Overlaps(e, r0) && Solid(e) {
        InsertHolds(r0, e, maxDepth, maxSize);
      }
    }

    /** QuadTree::OperateOnContents: the contents lists handed to func, in call order. */
    method OperateOnContents() returns (lists: seq<seq<QEntry>>)
      requires Valid()
      ensures lists == Visits(root)
      ensures forall i :: 0 <= i < |lists| ==> lists[i] != [] && exists j :: 0 <= j < |lists[i]| && !lists[i][j].slept
      ensures forall x :: Held(root, x) && !x.slept ==> exists i :: 0 <= i < |lists| && x in lists[i]
    {
      lists := NodeOperateOnContents(root);
      forall i | 0 <= i < |lists| ensures lists[i] != [] && exists j :: 0 <= j < |lists[i]| && !lists[i][j].slept {
        VisitsSound(root, i);
      }
      forall x | Held(root, x) && !x.slept ensures exists i :: 0 <= i < |lists| && x in lists[i] {
        var i := VisitsComplete(root, x);
      }
    }

    /** QuadTree::Clear: no entry is left, and the nodes that form the tree are kept. */
    method Clear()
      requires Valid()
      modifies this`root
      ensures Valid() && root == Cleared(old(root))
      ensures forall x :: !Held(root, x)
    {
      ghost var r0 := root;
      root := NodeClear(root);
      ClearedFits(r0, maxDepth);
      ClearedPlaced(r0);
      forall x ensures !Held(root, x) {
        ClearedEmpty(r0, x);
      }
    }
  }
}
