/**
 * NavigationGrid: a rectangular maze of cells laid out row by row, the links
 * between neighbouring open cells, and the A* search FindPath runs over them.
 *
 * GridNode pointers become indices into allNodes. A path under construction,
 * NavigationPath, is a class holding its stack of waypoints.
 */
module Navigation {
  import opened Common

  const WallNode: char := 'x'
  const FloorNode: char := '.'

  /**
   * A cell. Its four links and their costs are in the order z-1, z+1, x-1,
   * x+1; parent, f and g are the search's scratch fields.
   */
  datatype GridNode = GridNode(
    parent: Option<int>,
    connected: seq<Option<int>>,
    costs: seq<int>,
    position: Vec3,
    f: real,
    g: real,
    cellType: char)

  /** A default-constructed cell: no links, zero costs and scores, no parent, type 0. */
  const Blank: GridNode := GridNode(None, [None, None, None, None], [0, 0, 0, 0], Zero, 0.0, 0.0, 0 as char)

  // ------------------------------------------------------------ cell indices

  /** Where cell (x, z) is stored: rows of w cells, one after another. */
  function Idx(w: int, x: int, z: int): int { w * z + x }

  /** How many cells a w-by-h grid lays out: none unless both are positive. */
  function Cells(w: int, h: int): nat
  {
    if w <= 0 || h <= 0 then 0 else MulPos(w, h); w * h
  }

  predicate InGrid(w: int, h: int, x: int, z: int) { 0 <= x < w && 0 <= z < h }

  lemma MulPos(a: int, b: int)
    requires a > 0 && b > 0
    ensures a * b > 0
  {
  }

  lemma MulLe(a: int, b: int, c: int)
    requires a >= 0 && b <= c
    ensures a * b <= a * c
  {
    assert a * c - a * b == a * (c - b);
  }

  /** An in-bounds cell is stored inside the grid. */
  lemma IdxInRange(w: int, h: int, x: int, z: int)
    requires InGrid(w, h, x, z)
    ensures 0 <= Idx(w, x, z) < Cells(w, h)
  {
    MulLe(w, 0, z);
    MulLe(w, z + 1, h);
    assert w * (z + 1) == w * z + w;
  }

  /** A multiple of w strictly between -w and w is 0. */
  lemma MulSign(w: int, d: int)
    requires w > 0
    ensures d >= 1 ==> w * d >= w
    ensures d <= -1 ==> w * d <= -w
  {
    if d >= 1 {
      MulLe(w, 1, d);
    } else if d <= -1 {
      MulLe(w, d, -1);
    }
  }

  /** The index of cell (x, z) gives back x as its remainder and z as its quotient. */
  lemma Decode(w: int, x: int, z: int)
    requires w > 0 && 0 <= x < w
    ensures Idx(w, x, z) % w == x && Idx(w, x, z) / w == z
  {
    var k := Idx(w, x, z);
    var q, r := k / w, k % w;
    assert k == w * q + r;
    assert w * (q - z) == x - r;
    MulSign(w, q - z);
  }

  /** Every index inside the grid is the index of an in-bounds cell. */
  lemma Encode(w: int, h: int, k: int)
    requires 0 <= k < Cells(w, h)
    ensures w > 0 && InGrid(w, h, k % w, k / w) && Idx(w, k % w, k / w) == k
  {
    var q := k / w;
    assert k == w * q + k % w;
    MulSign(w, q - h + 1);
    MulSign(w, q + 1);
    assert w * (q - h + 1) == w * q - w * h + w;
    assert w * (q + 1) == w * q + w;
  }

  // ------------------------------------------------------------- the layout

  /** The type the constructor reads for the k-th cell; past the end of the input a read leaves 0. */
  function CellChar(cells: seq<char>, k: int): char
  {
    if 0 <= k < |cells| then cells[k] else 0 as char
  }

  /** Where cell (x, z) sits in the world: nodeSize apart along x and z from zeroPos. */
  function CellPosition(zeroPos: Vec3, nodeSize: int, x: int, z: int): Vec3
  {
    Add(zeroPos, Vec3((x * nodeSize) as real, 0.0, (z * nodeSize) as real))
  }

  /** The k-th cell as the constructor lays it out, before any link is made. */
  function LaidCell(zeroPos: Vec3, nodeSize: int, w: int, cells: seq<char>, k: int): GridNode
    requires w > 0
  {
    Blank.(position := CellPosition(zeroPos, nodeSize, k % w, k / w), cellType := CellChar(cells, k))
  }

  /** The whole grid as the constructor lays it out. */
  function Layout(zeroPos: Vec3, nodeSize: int, w: int, h: int, cells: seq<char>): (r: seq<GridNode>)
    ensures |r| == Cells(w, h)
  {
    seq(Cells(w, h), k requires 0 <= k < Cells(w, h) => LaidCell(zeroPos, nodeSize, w, cells, k))
  }

  /** Cell (x, z) of the layout is the (w*z+x)-th cell read, at zeroPos + (x, 0, z) * nodeSize. */
  lemma LayoutCell(zeroPos: Vec3, nodeSize: int, w: int, h: int, cells: seq<char>, x: int, z: int)
    requires InGrid(w, h, x, z)
    ensures 0 <= Idx(w, x, z) < Cells(w, h)
    ensures Layout(zeroPos, nodeSize, w, h, cells)[Idx(w, x, z)].position == CellPosition(zeroPos, nodeSize, x, z)
    ensures Layout(zeroPos, nodeSize, w, h, cells)[Idx(w, x, z)].cellType == CellChar(cells, Idx(w, x, z))
    ensures Layout(zeroPos, nodeSize, w, h, cells)[Idx(w, x, z)].connected == [None, None, None, None]
  {
    IdxInRange(w, h, x, z);
    Decode(w, x, z);
  }

  // -------------------------------------------------------------- the links

  /**
   * The in-bounds cell in direction i of cell (x, z): 0 is z-1, 1 is z+1,
   * 2 is x-1 and 3 is x+1.
   */
  function Neighbour(w: int, h: int, x: int, z: int, i: int): Option<int>
  {
    if i == 0 then (if z > 0 then Some(Idx(w, x, z - 1)) else None)
    else if i == 1 then (if z < h - 1 then Some(Idx(w, x, z + 1)) else None)
    else if i == 2 then (if x > 0 then Some(Idx(w, x - 1, z)) else None)
    else (if x < w - 1 then Some(Idx(w, x + 1, z)) else None)
  }

  /** The direction that leads back. */
  function Opposite(i: int): int { if i == 0 then 1 else if i == 1 then 0 else if i == 2 then 3 else 2 }

  /** A neighbour is another in-bounds cell, and its neighbour the other way round is this cell. */
  lemma NeighbourFacts(w: int, h: int, x: int, z: int, i: int)
    requires InGrid(w, h, x, z) && 0 <= i < 4 && Neighbour(w, h, x, z, i).Some?
    ensures var n := Neighbour(w, h, x, z, i).value;
      0 <= n < Cells(w, h) && n != Idx(w, x, z) &&
      Neighbour(w, h, n % w, n / w, Opposite(i)) == Some(Idx(w, x, z))
  {
    var n := Neighbour(w, h, x, z, i).value;
    var nx := if i == 2 then x - 1 else if i == 3 then x + 1 else x;
    var nz := if i == 0 then z - 1 else if i == 1 then z + 1 else z;
    assert n == Idx(w, nx, nz);
    IdxInRange(w, h, nx, nz);
    Decode(w, nx, nz);
    assert w * (z - 1) == w * z - w && w * (z + 1) == w * z + w;
  }

  /** Every node has four links and four costs. */
  ghost predicate Shaped(nodes: seq<GridNode>)
  {
    forall k :: 0 <= k < |nodes| ==> |nodes[k].connected| == 4 && |nodes[k].costs| == 4
  }

  /** Every link of every cell leads to that cell's in-bounds neighbour in its direction. */
  ghost predicate Wired(nodes: seq<GridNode>, w: int, h: int)
    requires Shaped(nodes)
  {
    forall k, i :: w > 0 && 0 <= k < |nodes| && 0 <= i < 4 && nodes[k].connected[i].Some? ==>
      nodes[k].connected[i] == Neighbour(w, h, k % w, k / w, i)
  }

  /** The type of the t-th cell; under Wired every link is an index into the grid. */
  function TypeAt(nodes: seq<GridNode>, t: int): char
  {
    if 0 <= t < |nodes| then nodes[t].cellType else 0 as char
  }

  /** What link i of n looks at while the links are rebuilt: its in-bounds neighbour, else what it held. */
  function Target(n: GridNode, w: int, h: int, x: int, z: int, i: int): Option<int>
    requires |n.connected| == 4 && 0 <= i < 4
  {
    var nb := Neighbour(w, h, x, z, i);
    if nb.Some? then nb else n.connected[i]
  }

  /** Link i after the rebuild: cut if it leads to a wall. */
  function LinkAfter(nodes: seq<GridNode>, n: GridNode, w: int, h: int, x: int, z: int, i: int): Option<int>
    requires |n.connected| == 4 && 0 <= i < 4
  {
    var t := Target(n, w, h, x, z, i);
    if t.Some? && TypeAt(nodes, t.value) == WallNode then None else t
  }

  /** Cost i after the rebuild: 1 towards a floor cell, 0 towards a wall, otherwise as it was. */
  function CostAfter(nodes: seq<GridNode>, n: GridNode, w: int, h: int, x: int, z: int, i: int): int
    requires |n.connected| == 4 && |n.costs| == 4 && 0 <= i < 4
  {
    var t := Target(n, w, h, x, z, i);
    if t.None? then n.costs[i]
    else if TypeAt(nodes, t.value) == FloorNode then 1
    else if TypeAt(nodes, t.value) == WallNode then 0
    else n.costs[i]
  }

  /** Cell (x, z) after the rebuild; only its links and costs change. */
  function RelinkedAt(nodes: seq<GridNode>, n: GridNode, w: int, h: int, x: int, z: int): GridNode
    requires |n.connected| == 4 && |n.costs| == 4
  {
    n.(connected := [LinkAfter(nodes, n, w, h, x, z, 0), LinkAfter(nodes, n, w, h, x, z, 1),
                     LinkAfter(nodes, n, w, h, x, z, 2), LinkAfter(nodes, n, w, h, x, z, 3)],
       costs := [CostAfter(nodes, n, w, h, x, z, 0), CostAfter(nodes, n, w, h, x, z, 1),
                 CostAfter(nodes, n, w, h, x, z, 2), CostAfter(nodes, n, w, h, x, z, 3)])
  }

  /** The whole grid after UpdateConnections: the same cells, still four links and costs each, types and positions kept. */
  function Connect(nodes: seq<GridNode>, w: int, h: int): (r: seq<GridNode>)
    requires Shaped(nodes) && |nodes| == Cells(w, h)
    ensures |r| == |nodes| && Shaped(r)
    ensures forall k :: 0 <= k < |r| ==> r[k].cellType == nodes[k].cellType && r[k].position == nodes[k].position
  {
    seq(|nodes|, k requires 0 <= k < |nodes| => RelinkedAt(nodes, nodes[k], w, h, k % w, k / w))
  }

  /** Rebuilding keeps every cell's type, position and scratch fields, and keeps the grid wired. */
  lemma ConnectKeeps(nodes: seq<GridNode>, w: int, h: int)
    requires Shaped(nodes) && |nodes| == Cells(w, h) && Wired(nodes, w, h)
    ensures Shaped(Connect(nodes, w, h)) && Wired(Connect(nodes, w, h), w, h)
    ensures forall k :: 0 <= k < |nodes| ==>
      Connect(nodes, w, h)[k] == nodes[k].(connected := Connect(nodes, w, h)[k].connected, costs := Connect(nodes, w, h)[k].costs)
  {
  }

  /**
   * The link rule: after UpdateConnections, link i of cell (x, z) leads to
   * its in-bounds neighbour exactly when that neighbour is not a wall, at cost
   * 1 when it is a floor cell; a link towards a wall is cut at cost 0.
   */
  lemma LinkRule(nodes: seq<GridNode>, w: int, h: int, x: int, z: int, i: int)
    requires Shaped(nodes) && |nodes| == Cells(w, h) && Wired(nodes, w, h)
    requires InGrid(w, h, x, z) && 0 <= i < 4
    ensures 0 <= Idx(w, x, z) < |nodes|
    ensures var r := Connect(nodes, w, h)[Idx(w, x, z)];
      var nb := Neighbour(w, h, x, z, i);
      (r.connected[i].Some? <==> nb.Some? && TypeAt(nodes, nb.value) != WallNode) &&
      (r.connected[i].Some? ==> r.connected[i] == nb) &&
      (nb.Some? && TypeAt(nodes, nb.value) == FloorNode ==> r.costs[i] == 1) &&
      (nb.Some? && TypeAt(nodes, nb.value) == WallNode ==> r.costs[i] == 0)
  {
    IdxInRange(w, h, x, z);
    Decode(w, x, z);
    var k := Idx(w, x, z);
    assert nodes[k].connected[i].Some? ==> nodes[k].connected[i] == Neighbour(w, h, x, z, i);
  }

  /**
   * Cells becoming floor open them: once cell c is made '.', every in-bounds
   * neighbour's link back towards c leads to c at cost 1.
   */
  lemma OpenedCellReachable(nodes: seq<GridNode>, w: int, h: int, x: int, z: int, i: int)
    requires Shaped(nodes) && |nodes| == Cells(w, h) && Wired(nodes, w, h)
    requires InGrid(w, h, x, z) && 0 <= i < 4 && Neighbour(w, h, x, z, i).Some?
    requires 0 <= Idx(w, x, z) < |nodes| && nodes[Idx(w, x, z)].cellType == FloorNode
    ensures var m := Neighbour(w, h, x, z, i).value;
      0 <= m < |nodes| &&
      Connect(nodes, w, h)[m].connected[Opposite(i)] == Some(Idx(w, x, z)) &&
      Connect(nodes, w, h)[m].costs[Opposite(i)] == 1
  {
    var m := Neighbour(w, h, x, z, i).value;
    NeighbourFacts(w, h, x, z, i);
    Encode(w, h, m);
    LinkRule(nodes, w, h, m % w, m / w, Opposite(i));
  }

  /** A route the search may report: consecutive cells linked, each from the next one. */
  ghost predicate Linked(graph: seq<seq<Option<int>>>, route: seq<int>)
  {
    (forall i :: 0 <= i < |route| ==> 0 <= route[i] < |graph|) &&
    (forall i :: 0 <= i < |route| - 1 ==> Some(route[i]) in graph[route[i + 1]])
  }

  /** A linked route that starts at a (the end cell, pushed first) and finishes at b (the start cell). */
  ghost predicate Route(graph: seq<seq<Option<int>>>, route: seq<int>, a: int, b: int)
  {
    |route| > 0 && route[0] == a && route[|route| - 1] == b && Linked(graph, route)
  }

  /** Some route of links leads to cell a from cell b. */
  ghost predicate Reachable(graph: seq<seq<Option<int>>>, a: int, b: int)
  {
    exists r :: Route(graph, r, a, b)
  }

  /** Stepping to a cell linked to the last one extends a linked route. */
  lemma LinkedSnoc(graph: seq<seq<Option<int>>>, route: seq<int>, v: int)
    requires Linked(graph, route) && 0 <= v < |graph|
    requires route != [] ==> Some(route[|route| - 1]) in graph[v]
    ensures Linked(graph, route + [v])
  {
    var r := route + [v];
    assert forall i :: 0 <= i < |route| ==> r[i] == route[i];
  }

  /**
   * Partway along the walk from the last cell of a closed chain back to the
   * start: route holds the cells pushed so far, node is the next one (none
   * once the start has been pushed), and j is its place in the chain.
   */
  ghost predicate Walking(graph: seq<seq<Option<int>>>, chain: seq<int>, start: int, route: seq<int>, node: Option<int>, j: int)
  {
    |chain| > 0 &&
    (node.Some? ==> 0 <= j < |chain| && node.value == chain[j] && 0 <= node.value < |graph|) &&
    (node.Some? && |route| == 0 ==> j == |chain| - 1) &&
    Linked(graph, route) &&
    (|route| > 0 ==> route[0] == chain[|chain| - 1]) &&
    (node.Some? && |route| > 0 ==> Some(route[|route| - 1]) in graph[node.value]) &&
    (node.None? ==> |route| > 0 && route[|route| - 1] == start)
  }

  /** Pushing cell v and stepping to its parent, which lies earlier in the chain, keeps the walk going. */
  lemma WalkStep(nodes: seq<GridNode>, graph: seq<seq<Option<int>>>, start: int, chain: seq<int>, route: seq<int>, v: int, j: int)
    requires Chain(nodes, graph, start, chain) && |graph| == |nodes|
    requires Walking(graph, chain, start, route, Some(v), j)
    ensures 0 <= v < |nodes|
    ensures nodes[v].parent.None? ==> Walking(graph, chain, start, route + [v], None, j)
    ensures nodes[v].parent.Some? ==>
      exists j' :: 0 <= j' < j && Walking(graph, chain, start, route + [v], nodes[v].parent, j')
  {
    LinkedSnoc(graph, route, v);
    var route' := route + [v];
    if nodes[v].parent.Some? {
      assert j > 0 && Reached(nodes, graph, chain[j], chain[..j]);
      var p := nodes[v].parent.value;
      var j' :| 0 <= j' < j && chain[j'] == p;
      assert chain[j'] in chain;
      assert Walking(graph, chain, start, route', nodes[v].parent, j');
    }
  }

  /** The grid's links, one list of four per cell. */
  function Graph(nodes: seq<GridNode>): (r: seq<seq<Option<int>>>)
    ensures |r| == |nodes|
  {
    seq(|nodes|, k requires 0 <= k < |nodes| => nodes[k].connected)
  }

  /** The positions of the cells of a route. */
  function Positions(nodes: seq<GridNode>, route: seq<int>): (r: seq<Vec3>)
    requires forall i :: 0 <= i < |route| ==> 0 <= route[i] < |nodes|
    ensures |r| == |route|
  {
    seq(|route|, i requires 0 <= i < |route| => nodes[route[i]].position)
  }

  /** Two grids that differ at most in the search's scratch fields. */
  ghost predicate SameGrid(a: seq<GridNode>, b: seq<GridNode>)
  {
    |a| == |b| &&
    forall k :: 0 <= k < |a| ==>
      a[k].connected == b[k].connected && a[k].costs == b[k].costs &&
      a[k].position == b[k].position && a[k].cellType == b[k].cellType
  }

  /** Relinking a cell reads the other cells' types only. */
  lemma TypesAgree(a: seq<GridNode>, b: seq<GridNode>, n: GridNode, x: int, z: int)
    requires |n.connected| == 4 && |n.costs| == 4
    requires |a| == |b| && forall k :: 0 <= k < |a| ==> a[k].cellType == b[k].cellType
    ensures forall w, h :: RelinkedAt(a, n, w, h, x, z) == RelinkedAt(b, n, w, h, x, z)
  {
    assert forall t :: TypeAt(a, t) == TypeAt(b, t);
  }

  /** The grid's links never leave the grid and never lead a cell to itself. */
  ghost predicate Sound(graph: seq<seq<Option<int>>>)
  {
    forall k, i :: 0 <= k < |graph| && 0 <= i < |graph[k]| && graph[k][i].Some? ==>
      0 <= graph[k][i].value < |graph| && graph[k][i].value != k
  }

  lemma WiredSound(nodes: seq<GridNode>, w: int, h: int)
    requires Shaped(nodes) && |nodes| == Cells(w, h) && Wired(nodes, w, h)
    ensures Sound(Graph(nodes))
  {
    forall k, i | 0 <= k < |nodes| && 0 <= i < 4 && nodes[k].connected[i].Some?
      ensures 0 <= nodes[k].connected[i].value < |nodes| && nodes[k].connected[i].value != k
    {
      Encode(w, h, k);
      NeighbourFacts(w, h, k % w, k / w, i);
    }
  }

  lemma SameGridTrans(a: seq<GridNode>, b: seq<GridNode>, c: seq<GridNode>)
    requires SameGrid(a, b) && SameGrid(b, c)
    ensures SameGrid(a, c)
  {
  }

  lemma SameGridKeeps(a: seq<GridNode>, b: seq<GridNode>, w: int, h: int)
    requires SameGrid(a, b)
    ensures Graph(a) == Graph(b)
    ensures Shaped(b) ==> Shaped(a)
    ensures Shaped(b) && Wired(b, w, h) ==> Wired(a, w, h)
  {
  }

  ghost predicate InRange(nodes: seq<GridNode>, s: seq<int>)
  {
    forall i :: 0 <= i < |s| ==> 0 <= s[i] < |nodes|
  }

  /** Cell n was reached from a cell of prior: its parent is there, and linked to n. */
  ghost predicate Reached(nodes: seq<GridNode>, graph: seq<seq<Option<int>>>, n: int, prior: seq<int>)
    requires 0 <= n < |nodes|
  {
    nodes[n].parent.Some? && nodes[n].parent.value in prior &&
    0 <= nodes[n].parent.value < |graph| && Some(n) in graph[nodes[n].parent.value]
  }

  /**
   * The closed list of the search: the start cell first, with no parent, and
   * every later cell's parent closed before it.
   */
  ghost predicate Chain(nodes: seq<GridNode>, graph: seq<seq<Option<int>>>, start: int, closed: seq<int>)
  {
    |closed| > 0 && closed[0] == start && InRange(nodes, closed) && NoDup(closed) &&
    nodes[start].parent == None &&
    forall j :: 0 < j < |closed| ==> Reached(nodes, graph, closed[j], closed[..j])
  }

  /** The open list of the search: distinct cells, none closed, each reached from a closed cell. */
  ghost predicate Frontier(nodes: seq<GridNode>, graph: seq<seq<Option<int>>>, start: int, open: seq<int>, closed: seq<int>)
  {
    Chain(nodes, graph, start, closed) && InRange(nodes, open) && NoDup(open) &&
    (forall n :: n in open ==> n !in closed) &&
    (forall n :: n in open ==> Reached(nodes, graph, n, closed))
  }

  /** Every link out of cell c leads to an open or a closed cell. */
  ghost predicate Shut(graph: seq<seq<Option<int>>>, c: int, open: seq<int>, closed: seq<int>)
    requires 0 <= c < |graph|
  {
    forall i :: 0 <= i < |graph[c]| && graph[c][i].Some? ==> graph[c][i].value in open || graph[c][i].value in closed
  }

  /** No link leaves the searched region except into the open list. */
  ghost predicate Closure(graph: seq<seq<Option<int>>>, open: seq<int>, closed: seq<int>)
  {
    forall c :: c in closed ==> 0 <= c < |graph| && Shut(graph, c, open, closed)
  }

  /** The first cell closed: the start, with no parent. */
  lemma ChainStart(nodes: seq<GridNode>, graph: seq<seq<Option<int>>>, start: int)
    requires 0 <= start < |nodes| && nodes[start].parent == None
    ensures Chain(nodes, graph, start, [start])
  {
  }

  /** Closing a cell reached from the closed list extends the chain. */
  lemma ChainExtend(nodes: seq<GridNode>, graph: seq<seq<Option<int>>>, start: int, closed: seq<int>, cur: int)
    requires Chain(nodes, graph, start, closed) && 0 <= cur < |nodes| && cur !in closed
    requires Reached(nodes, graph, cur, closed)
    ensures Chain(nodes, graph, start, closed + [cur])
  {
    var closed' := closed + [cur];
    assert forall j :: 0 < j < |closed| ==> closed'[..j] == closed[..j];
    assert closed'[..|closed|] == closed;
  }

  /** Links out of a closed cell still end open or closed once an open cell is moved to the closed list. */
  lemma ShutMove(graph: seq<seq<Option<int>>>, c: int, open: seq<int>, closed: seq<int>, b: int)
    requires 0 <= c < |graph| && 0 <= b < |open| && Shut(graph, c, open, closed)
    ensures Shut(graph, c, open[..b] + open[b + 1..], closed + [open[b]])
  {
    RemoveAt(open, b);
    forall x | x in open ensures x in open[..b] + open[b + 1..] || x == open[b] {
      var i :| 0 <= i < |open| && open[i] == x;
      if i < b {
        assert open[i] == (open[..b] + open[b + 1..])[i];
      } else if i > b {
        assert open[i] == (open[..b] + open[b + 1..])[i - 1];
      }
    }
  }

  /** Opening a reached cell that is neither open nor closed keeps the frontier. */
  lemma Admit(nodes: seq<GridNode>, graph: seq<seq<Option<int>>>, start: int, open: seq<int>, closed: seq<int>, n: int)
    requires Frontier(nodes, graph, start, open, closed)
    requires 0 <= n < |nodes| && n !in open && n !in closed && Reached(nodes, graph, n, closed)
    ensures Frontier(nodes, graph, start, open + [n], closed)
  {
  }

  /** Making a closed cell the parent of a linked cell that is not closed keeps the frontier. */
  lemma Reparent(nodes: seq<GridNode>, graph: seq<seq<Option<int>>>, start: int, open: seq<int>, closed: seq<int>,
                 n: int, cur: int, f: real, g: real)
    requires Frontier(nodes, graph, start, open, closed)
    requires 0 <= n < |nodes| && n !in closed && cur in closed && 0 <= cur < |graph| && Some(n) in graph[cur]
    ensures var nodes' := nodes[n := nodes[n].(parent := Some(cur), f := f, g := g)];
      Frontier(nodes', graph, start, open, closed) && Reached(nodes', graph, n, closed)
  {
    var nodes' := nodes[n := nodes[n].(parent := Some(cur), f := f, g := g)];
    assert n != start;
    forall j | 0 < j < |closed|
      ensures Reached(nodes', graph, closed[j], closed[..j])
    {
      assert closed[j] in closed;
      assert Reached(nodes, graph, closed[j], closed[..j]);
    }
    forall m | m in open
      ensures Reached(nodes', graph, m, closed)
    {
      assert Reached(nodes, graph, m, closed);
    }
  }

  /** Opening one more cell keeps every closed cell's links ending open or closed. */
  lemma ShutGrow(graph: seq<seq<Option<int>>>, c: int, open: seq<int>, closed: seq<int>, n: int)
    requires 0 <= c < |graph| && Shut(graph, c, open, closed)
    ensures Shut(graph, c, open + [n], closed)
  {
  }

  /** Taking cell b off the open list and closing it keeps the search's invariants. */
  /** The search loop's invariant: the start node alone before the first round, a frontier and its closure after. */
  ghost predicate Searching(nodes: seq<GridNode>, graph: seq<seq<Option<int>>>, start: int, end: int,
                            open: seq<int>, closed: seq<int>)
  {
    0 <= start < |nodes| && |graph| == |nodes| && end !in closed && |closed| <= |nodes| &&
    ((closed == [] && open == [start] && nodes[start].parent == None) ||
     (Frontier(nodes, graph, start, open, closed) && Closure(graph, open, closed)))
  }

  lemma PopStep(nodes: seq<GridNode>, graph: seq<seq<Option<int>>>, start: int, open: seq<int>, closed: seq<int>, b: int)
    requires 0 <= start < |nodes| && |graph| == |nodes|
    requires (closed == [] && open == [start] && nodes[start].parent == None) ||
             (Frontier(nodes, graph, start, open, closed) && Closure(graph, open, closed))
    requires 0 <= b < |open|
    ensures Frontier(nodes, graph, start, open[..b] + open[b + 1..], closed + [open[b]])
    ensures forall c :: c in closed ==> 0 <= c < |graph| && Shut(graph, c, open[..b] + open[b + 1..], closed + [open[b]])
  {
    var cur, rest, closed' := open[b], open[..b] + open[b + 1..], closed + [open[b]];
    RemoveAt(open, b);
    if closed == [] {
      assert rest == [] && closed' == [start];
      ChainStart(nodes, graph, start);
    } else {
      assert cur in open;
      ChainExtend(nodes, graph, start, closed, cur);
      forall n | n in rest
        ensures n !in closed' && Reached(nodes, graph, n, closed')
      {
        assert n in open;
      }
      forall c | c in closed
        ensures 0 <= c < |graph| && Shut(graph, c, rest, closed')
      {
        ShutMove(graph, c, open, closed, b);
      }
    }
  }

  /** Every cell of a linked route that finishes inside a closed region is in it. */
  lemma {:induction false} RouteInside(graph: seq<seq<Option<int>>>, closed: seq<int>, route: seq<int>, i: int)
    requires Closure(graph, [], closed) && Linked(graph, route)
    requires 0 <= i < |route| && route[|route| - 1] in closed
    ensures route[i] in closed
    decreases |route| - i
  {
    if i < |route| - 1 {
      RouteInside(graph, closed, route, i + 1);
      var c := route[i + 1];
      var k :| 0 <= k < |graph[c]| && graph[c][k] == Some(route[i]);
      assert Shut(graph, c, [], closed);
    }
  }

  /**
   * Once the open list is empty, the closed region holds everything linked
   * to the start: no route reaches an end cell outside it.
   */
  lemma NoRoute(graph: seq<seq<Option<int>>>, closed: seq<int>, route: seq<int>, start: int, end: int)
    requires Closure(graph, [], closed) && start in closed && end !in closed
    ensures !Route(graph, route, end, start)
  {
    if |route| > 0 && route[|route| - 1] == start && Linked(graph, route) {
      RouteInside(graph, closed, route, 0);
    }
  }

  /** Erasing the b-th element: the others keep their order, and a list without duplicates loses exactly that value. */
  lemma RemoveAt(s: seq<int>, b: int)
    requires 0 <= b < |s|
    ensures var t := s[..b] + s[b + 1..];
      |t| == |s| - 1 &&
      (forall j :: 0 <= j < |t| ==> t[j] == s[if j < b then j else j + 1]) &&
      (forall x :: x in t ==> x in s) &&
      (NoDup(s) ==> NoDup(t) && s[b] !in t)
  {
    var t := s[..b] + s[b + 1..];
    assert forall j :: 0 <= j < |t| ==> t[j] == s[if j < b then j else j + 1];
    assert forall x :: x in t ==> exists j :: 0 <= j < |t| && t[j] == x;
  }

  /** A list of distinct grid indices is no longer than the grid. */
  lemma NoDupBound(s: seq<int>, n: int)
    requires n >= 0 && NoDup(s) && forall i :: 0 <= i < |s| ==> 0 <= s[i] < n
    ensures |s| <= n
    decreases n
  {
    if |s| > 0 {
      assert 0 <= s[0] < n;
      if i :| 0 <= i < |s| && s[i] == n - 1 {
        var t := s[..i] + s[i + 1..];
        RemoveAt(s, i);
        assert forall j :: 0 <= j < |t| ==> t[j] != n - 1;
        NoDupBound(t, n - 1);
      } else {
        NoDupBound(s, n - 1);
      }
    }
  }

  /** The position in the list of the cell RemoveBestNode takes: the first with the lowest f. */
  function BestIndex(nodes: seq<GridNode>, list: seq<int>): (b: nat)
    requires |list| > 0 && InRange(nodes, list)
    ensures b < |list|
  {
    if |list| == 1 then 0
    else
      var b := BestIndex(nodes, list[..|list| - 1]);
      if nodes[list[|list| - 1]].f < nodes[list[b]].f then |list| - 1 else b
  }

  /** The cell RemoveBestNode takes has the lowest f of the list, and every cell before it a strictly higher one. */
  lemma {:induction false} BestIndexFirstMinimum(nodes: seq<GridNode>, list: seq<int>)
    requires |list| > 0 && InRange(nodes, list)
    ensures var b := BestIndex(nodes, list);
      (forall j :: 0 <= j < |list| ==> nodes[list[b]].f <= nodes[list[j]].f) &&
      (forall j :: 0 <= j < b ==> nodes[list[b]].f < nodes[list[j]].f)
  {
    if |list| > 1 {
      var prefix := list[..|list| - 1];
      BestIndexFirstMinimum(nodes, prefix);
      assert forall j :: 0 <= j < |prefix| ==> prefix[j] == list[j];
    }
  }

  /** NodeInList: whether a cell is in a list, searching from the front. */
  function NodeInList(n: int, list: seq<int>): (r: bool)
    ensures r <==> n in list
  {
    if list == [] then false
    else list[0] == n || NodeInList(n, list[1..])
  }

  /** A NavigationPath: waypoints pushed and popped at the back. */
  class NavigationPath {
    var waypoints: seq<Vec3>

    constructor ()
      ensures waypoints == []
    {
      waypoints := [];
    }

    method PushWaypoint(wp: Vec3)
      modifies this`waypoints
      ensures waypoints == old(waypoints) + [wp]
    {
      waypoints := waypoints + [wp];
    }

    /** Takes the last waypoint pushed; false, changing nothing, on an empty path. */
    method PopWaypoint(waypoint: Vec3) returns (ok: bool, out: Vec3)
      modifies this`waypoints
      ensures ok <==> old(waypoints) != []
      ensures ok ==> waypoints + [out] == old(waypoints)
      ensures !ok ==> waypoints == old(waypoints) && out == waypoint
    {
      if waypoints == [] {
        return false, waypoint;
      }
      out := waypoints[|waypoints| - 1];
      waypoints := waypoints[..|waypoints| - 1];
      ok := true;
    }
  }

  /** One row z of the constructor's layout loop: cells (0, z) to (w - 1, z) are appended in turn. */
  method LayRow(nodes: seq<GridNode>, zero: Vec3, size: int, w: int, cells: seq<char>, z: int) returns (r: seq<GridNode>)
    requires z >= 0 && |nodes| == if w <= 0 then 0 else w * z
    requires forall k :: 0 <= k < |nodes| ==> w > 0 && nodes[k] == LaidCell(zero, size, w, cells, k)
    ensures |r| == if w <= 0 then 0 else w * (z + 1)
    ensures forall k :: 0 <= k < |r| ==> w > 0 && r[k] == LaidCell(zero, size, w, cells, k)
  {
    r := nodes;
    var x := 0;
    while x < w
      invariant 0 <= x && (x <= w || x == 0)
      invariant |r| == if w <= 0 then 0 else Idx(w, x, z)
      invariant forall k :: 0 <= k < |r| ==> w > 0 && r[k] == LaidCell(zero, size, w, cells, k)
    {
      var nodePos := (w * z) + x;
      r := r + [Blank];
      Decode(w, x, z);
      r := r[nodePos := r[nodePos].(cellType := CellChar(cells, nodePos))];
      r := r[nodePos := r[nodePos].(position := CellPosition(zero, size, x, z))];
      x := x + 1;
    }
    assert w > 0 ==> Idx(w, w, z) == w * (z + 1);
  }

  /** The constructor's layout loop: rows z = 0 .. height - 1, each laid by LayRow. */
  method LayOut(zero: Vec3, size: int, width: int, height: int, cells: seq<char>) returns (nodes: seq<GridNode>)
    ensures nodes == Layout(zero, size, width, height, cells)
  {
    nodes := [];
    var z := 0;
    while z < height
      invariant 0 <= z && (z <= height || z == 0)
      invariant |nodes| == if width <= 0 then 0 else width * z
      invariant forall k :: 0 <= k < |nodes| ==> width > 0 && nodes[k] == LaidCell(zero, size, width, cells, k)
    {
      nodes := LayRow(nodes, zero, size, width, cells, z);
      z := z + 1;
    }
    if width > 0 && height > 0 {
      assert |nodes| == Cells(width, height);
    }
    assert nodes == Layout(zero, size, width, height, cells);
  }

  class NavigationGrid {
    var nodeSize: int
    var gridWidth: int
    var gridHeight: int
    var zeroPos: Vec3
    var allNodes: seq<GridNode>

    ghost predicate Valid()
      reads this
    {
      |allNodes| == Cells(gridWidth, gridHeight) && Shaped(allNodes) && Wired(allNodes, gridWidth, gridHeight)
    }

    /**
     * The grid a maze file describes: its node size, width and height, then
     * one type per cell, row by row (cells, after whitespace is skipped). Each
     * cell is laid out at its position and the links are built.
     */
    constructor (size: int, width: int, height: int, cells: seq<char>, zero: Vec3)
      ensures nodeSize == size && gridWidth == width && gridHeight == height && zeroPos == zero
      ensures Valid()
      ensures allNodes == Connect(Layout(zero, size, width, height, cells), width, height)
    {
      var nodes := LayOut(zero, size, width, height, cells);
      nodeSize := size;
      gridWidth := width;
      gridHeight := height;
      zeroPos := zero;
      allNodes := nodes;
      new;
      UpdateConnections();
    }
  
    /**
     * Rebuilds every cell's links towards its in-bounds neighbours; a link to
     * a floor cell costs 1 and a link to a wall is cut at cost 0.
     */
    method UpdateConnections()
      requires Shaped(allNodes) && |allNodes| == Cells(gridWidth, gridHeight)
      modifies this`allNodes
      ensures allNodes == Connect(old(allNodes), gridWidth, gridHeight)
    {
      ghost var nodes0 := allNodes;
      var z := 0;
      while z < gridHeight
        invariant 0 <= z && (z <= gridHeight || z == 0)
        invariant |allNodes| == |nodes0|
        invariant forall k :: 0 <= k < |allNodes| ==>
          allNodes[k] == if k < gridWidth * z then Connect(nodes0, gridWidth, gridHeight)[k] else nodes0[k]
      {
        RelinkRow(z, nodes0);
        z := z + 1;
      }
    }

    /** Row z of UpdateConnections: cells (0, z) to (gridWidth - 1, z) are rebuilt in turn. */
    method RelinkRow(z: int, ghost nodes0: seq<GridNode>)
      requires Shaped(nodes0) && |nodes0| == Cells(gridWidth, gridHeight) && 0 <= z < gridHeight
      requires |allNodes| == |nodes0|
      requires forall k :: 0 <= k < |allNodes| ==>
        allNodes[k] == if k < gridWidth * z then Connect(nodes0, gridWidth, gridHeight)[k] else nodes0[k]
      modifies this`allNodes
      ensures |allNodes| == |nodes0|
      ensures forall k :: 0 <= k < |allNodes| ==>
        allNodes[k] == if k < gridWidth * (z + 1) then Connect(nodes0, gridWidth, gridHeight)[k] else nodes0[k]
    {
      var x := 0;
      while x < gridWidth
        invariant 0 <= x && (x <= gridWidth || x == 0)
        invariant |allNodes| == |nodes0|
        invariant forall k :: 0 <= k < |allNodes| ==>
          allNodes[k] == if k < Idx(gridWidth, x, z) then Connect(nodes0, gridWidth, gridHeight)[k] else nodes0[k]
      {
        IdxInRange(gridWidth, gridHeight, x, z);
        Decode(gridWidth, x, z);
        var idx := (gridWidth * z) + x;
        var m := RelinkCell(x, z);
        TypesAgree(allNodes, nodes0, allNodes[idx], x, z);
        allNodes := allNodes[idx := m];
        x := x + 1;
      }
      assert gridWidth > 0 ==> Idx(gridWidth, x, z) == gridWidth * (z + 1);
    }

    /** The body of UpdateConnections for cell (x, z): its rebuilt links and costs. */
    method RelinkCell(x: int, z: int) returns (m: GridNode)
      requires Shaped(allNodes) && |allNodes| == Cells(gridWidth, gridHeight) && InGrid(gridWidth, gridHeight, x, z)
      ensures 0 <= Idx(gridWidth, x, z) < |allNodes|
      ensures m == RelinkedAt(allNodes, allNodes[Idx(gridWidth, x, z)], gridWidth, gridHeight, x, z)
    {
      IdxInRange(gridWidth, gridHeight, x, z);
      var n := allNodes[(gridWidth * z) + x];
      var links := n.connected;
      var costs := n.costs;
      if z > 0 {
        links := links[0 := Some((gridWidth * (z - 1)) + x)];
      }
      if z < gridHeight - 1 {
        links := links[1 := Some((gridWidth * (z + 1)) + x)];
      }
      if x > 0 {
        links := links[2 := Some((gridWidth * z) + (x - 1))];
      }
      if x < gridWidth - 1 {
        links := links[3 := Some((gridWidth * z) + (x + 1))];
      }
      var i := 0;
      while i < 4
        invariant 0 <= i <= 4 && |links| == 4 && |costs| == 4
        invariant forall j :: 0 <= j < i ==>
          links[j] == LinkAfter(allNodes, n, gridWidth, gridHeight, x, z, j) &&
          costs[j] == CostAfter(allNodes, n, gridWidth, gridHeight, x, z, j)
        invariant forall j :: i <= j < 4 ==>
          links[j] == Target(n, gridWidth, gridHeight, x, z, j) && costs[j] == n.costs[j]
      {
        if links[i].Some? {
          if TypeAt(allNodes, links[i].value) == FloorNode {
            costs := costs[i := 1];
          }
          if TypeAt(allNodes, links[i].value) == WallNode {
            links := links[i := None];
            costs := costs[i := 0];
          }
        }
        i := i + 1;
      }
      m := n.(connected := links, costs := costs);
    }
  
    /** The cell a world position falls in, as RemoveNode computes it: each coordinate truncated, then divided by nodeSize. */
    function CellAt(p: Vec3): (int, int)
      requires nodeSize != 0
      reads this`nodeSize
    {
      (CDiv(TruncToInt(p.x), nodeSize), CDiv(TruncToInt(p.z), nodeSize))
    }

    /** A world position shifted so that it is measured from the corner of cell (0, 0), half a node before its centre. */
    function FromCorner(p: Vec3): Vec3
      reads this`zeroPos, this`nodeSize
    {
      Add(Sub(p, zeroPos), Vec3(CDiv(nodeSize, 2) as real, 0.0, CDiv(nodeSize, 2) as real))
    }

    /**
     * Opens the cell at a world position: outside the grid nothing happens;
     * inside, the cell becomes floor and every link is rebuilt.
     */
    method RemoveNode(position: Vec3)
      requires Valid() && nodeSize != 0
      modifies this`allNodes
      ensures Valid()
      ensures var c := CellAt(Sub(position, zeroPos));
        if !InGrid(gridWidth, gridHeight, c.0, c.1) then allNodes == old(allNodes)
        else
          var k := Idx(gridWidth, c.0, c.1);
          0 <= k < |allNodes| &&
          allNodes == Connect(old(allNodes)[k := old(allNodes)[k].(cellType := FloorNode)], gridWidth, gridHeight)
    {
      var p := Sub(position, zeroPos);
      var gridX := CDiv(TruncToInt(p.x), nodeSize);
      var gridZ := CDiv(TruncToInt(p.z), nodeSize);
      if gridX < 0 || gridX > gridWidth - 1 || gridZ < 0 || gridZ > gridHeight - 1 {
        return;
      }
      IdxInRange(gridWidth, gridHeight, gridX, gridZ);
      var k := (gridZ * gridWidth) + gridX;
      allNodes := allNodes[k := allNodes[k].(cellType := FloorNode)];
      ghost var floored := allNodes;
      UpdateConnections();
      ConnectKeeps(floored, gridWidth, gridHeight);
    }

    /** The four corner cells FullyWithinOpenNodes computes for a box: top x, top z, bottom x, bottom z. */
    function Corners(position: Vec3, halfSize: Vec3): (int, int, int, int)
      requires nodeSize != 0
      reads this`zeroPos, this`nodeSize
    {
      var gridPos := FromCorner(position);
      var topLeft := Sub(gridPos, Vec3(halfSize.x, 0.0, halfSize.z));
      var botRight := Add(gridPos, Vec3(halfSize.x, 0.0, halfSize.z));
      (CDiv(TruncToInt(topLeft.x), nodeSize), CDiv(TruncToInt(topLeft.z), nodeSize),
       CDiv(TruncToInt(botRight.x), nodeSize), CDiv(TruncToInt(botRight.z), nodeSize))
    }

    /** Both corner cells are in the grid and no cell of the rectangle between them is a wall. */
    ghost predicate OpenRect(position: Vec3, halfSize: Vec3)
      requires nodeSize != 0
      reads this
    {
      var (tx, tz, bx, bz) := Corners(position, halfSize);
      InGrid(gridWidth, gridHeight, tx, tz) && InGrid(gridWidth, gridHeight, bx, bz) &&
      forall x, z :: tz <= z <= bz && tx <= x <= bx ==> TypeAt(allNodes, Idx(gridWidth, x, z)) != WallNode
    }

    /** Whether a box (centre and half-size, in the xz plane) lies wholly on open cells of the grid. */
    method FullyWithinOpenNodes(position: Vec3, halfSize: Vec3) returns (r: bool)
      requires Valid() && nodeSize != 0
      ensures r <==> OpenRect(position, halfSize)
    {
      var gridPos := FromCorner(position);
      var topLeft := Sub(gridPos, Vec3(halfSize.x, 0.0, halfSize.z));
      var botRight := Add(gridPos, Vec3(halfSize.x, 0.0, halfSize.z));
      var gridTopX := CDiv(TruncToInt(topLeft.x), nodeSize);
      var gridTopZ := CDiv(TruncToInt(topLeft.z), nodeSize);
      var gridBotX := CDiv(TruncToInt(botRight.x), nodeSize);
      var gridBotZ := CDiv(TruncToInt(botRight.z), nodeSize);
      if gridTopX < 0 || gridTopX > gridWidth - 1 || gridTopZ < 0 || gridTopZ > gridHeight - 1 {
        return false;
      }
      if gridBotX < 0 || gridBotX > gridWidth - 1 || gridBotZ < 0 || gridBotZ > gridHeight - 1 {
        return false;
      }
      var z := gridTopZ;
      while z <= gridBotZ
        invariant gridTopZ <= z && (z <= gridBotZ + 1 || z == gridTopZ)
        invariant forall x', z' :: gridTopZ <= z' < z && gridTopX <= x' <= gridBotX ==>
          TypeAt(allNodes, Idx(gridWidth, x', z')) != WallNode
      {
        var x := gridTopX;
        while x <= gridBotX
          invariant gridTopX <= x && (x <= gridBotX + 1 || x == gridTopX)
          invariant forall x', z' :: gridTopZ <= z' < z && gridTopX <= x' <= gridBotX ==>
            TypeAt(allNodes, Idx(gridWidth, x', z')) != WallNode
          invariant forall x' :: gridTopX <= x' < x ==> TypeAt(allNodes, Idx(gridWidth, x', z)) != WallNode
        {
          IdxInRange(gridWidth, gridHeight, x, z);
          if allNodes[(z * gridWidth) + x].cellType == WallNode {
            return false;
          }
          x := x + 1;
        }
        z := z + 1;
      }
      return true;
    }
  
    /** Takes the cell with the lowest f off a non-empty list, the first of them on a tie. */
    method RemoveBestNode(list: seq<int>) returns (bestNode: int, rest: seq<int>)
      requires |list| > 0 && InRange(allNodes, list)
      ensures bestNode == list[BestIndex(allNodes, list)]
      ensures rest == list[..BestIndex(allNodes, list)] + list[BestIndex(allNodes, list) + 1..]
    {
      var bestI := 0;
      bestNode := list[0];
      var i := 0;
      while i < |list|
        invariant 0 <= i <= |list|
        invariant bestI == BestIndex(allNodes, list[..if i == 0 then 1 else i]) && bestNode == list[bestI]
      {
        assert list[..i + 1][..i] == list[..i];
        if allNodes[list[i]].f < allNodes[bestNode].f {
          bestNode := list[i];
          bestI := i;
        }
        i := i + 1;
      }
      assert list[..|list|] == list;
      rest := list[..bestI] + list[bestI + 1..];
    }

    /**
     * One step of FindPath's search, for the cell just taken off the open
     * list: every linked neighbour not yet closed gets scored, is opened if
     * it was not, and takes current as its parent when that is its first or a
     * cheaper route.
     */
    method Expand(current: int, endNode: int, openList: seq<int>, closedList: seq<int>, dist: (Vec3, Vec3) -> real,
                  ghost start: int, ghost graph: seq<seq<Option<int>>>) returns (open: seq<int>)
      requires Shaped(allNodes) && graph == Graph(allNodes) && Sound(graph)
      requires 0 <= endNode < |allNodes|
      requires Frontier(allNodes, graph, start, openList, closedList + [current])
      requires forall c :: c in closedList ==> 0 <= c < |graph| && Shut(graph, c, openList, closedList + [current])
      modifies this`allNodes
      ensures SameGrid(allNodes, old(allNodes))
      ensures Frontier(allNodes, graph, start, open, closedList + [current])
      ensures Closure(graph, open, closedList + [current])
    {
      ghost var closed := closedList + [current];
      assert current in closed;
      open := openList;
      var i := 0;
      while i < 4
        invariant 0 <= i <= 4
        invariant Shaped(allNodes) && graph == Graph(allNodes)
        invariant SameGrid(allNodes, old(allNodes))
        invariant allNodes[current] == old(allNodes[current])
        invariant Frontier(allNodes, graph, start, open, closed)
        invariant forall c :: c in closedList ==> 0 <= c < |graph| && Shut(graph, c, open, closed)
        invariant forall j :: 0 <= j < i && graph[current][j].Some? ==> graph[current][j].value in open || graph[current][j].value in closed
      {
        ghost var open0, nodes0 := open, allNodes;
        open := ExpandLink(current, i, endNode, open, closedList, dist, start, graph);
        SameGridTrans(allNodes, nodes0, old(allNodes));
        forall j | 0 <= j < i + 1 && graph[current][j].Some?
          ensures graph[current][j].value in open || graph[current][j].value in closed
        {
          if j < i {
            assert graph[current][j].value in open0 || graph[current][j].value in closed;
          }
        }
        i := i + 1;
      }
    }

    /**
     * One pass of Expand's loop, over link i of the current cell: a linked
     * neighbour not yet closed is scored, opened if it was not, and takes
     * current as its parent when that is its first or a cheaper route.
     */
    method ExpandLink(current: int, i: int, endNode: int, openList: seq<int>, closedList: seq<int>, dist: (Vec3, Vec3) -> real,
                      ghost start: int, ghost graph: seq<seq<Option<int>>>) returns (open: seq<int>)
      requires Shaped(allNodes) && graph == Graph(allNodes) && Sound(graph) && 0 <= i < 4
      requires 0 <= endNode < |allNodes| && 0 <= current < |allNodes|
      requires Frontier(allNodes, graph, start, openList, closedList + [current])
      requires forall c :: c in closedList ==> 0 <= c < |graph| && Shut(graph, c, openList, closedList + [current])
      modifies this`allNodes
      ensures SameGrid(allNodes, old(allNodes)) && allNodes[current] == old(allNodes[current])
      ensures Shaped(allNodes) && graph == Graph(allNodes)
      ensures Frontier(allNodes, graph, start, open, closedList + [current])
      ensures forall c :: c in closedList ==> 0 <= c < |graph| && Shut(graph, c, open, closedList + [current])
      ensures forall n :: n in openList ==> n in open
      ensures graph[current][i].Some? ==> graph[current][i].value in open || graph[current][i].value in closedList + [current]
    {
      ghost var closed := closedList + [current];
      assert current in closed;
      open := openList;
      var neighbour := allNodes[current].connected[i];
      if neighbour.Some? {
        var n := neighbour.value;
        assert graph[current][i] == neighbour;
        var inClosed := NodeInList(n, closedList);
        if !inClosed {
          var h := dist(allNodes[n].position, allNodes[endNode].position);
          var g := allNodes[current].g + allNodes[current].costs[i] as real;
          var f := h + g;
          var inOpen := NodeInList(n, open);
          ghost var open0, nodes0 := open, allNodes;
          if !inOpen {
            open := open + [n];
            forall c | c in closedList
              ensures 0 <= c < |graph| && Shut(graph, c, open, closed)
            {
              ShutGrow(graph, c, open0, closed, n);
            }
          }
          if !inOpen || f < allNodes[n].f {
            allNodes := allNodes[n := allNodes[n].(parent := Some(current), f := f, g := g)];
            Reparent(nodes0, graph, start, open0, closed, n, current, f, g);
          }
          if !inOpen {
            Admit(allNodes, graph, start, open0, closed, n);
          }
        }
      }
      SameGridKeeps(allNodes, old(allNodes), 0, 0);
    }

    /**
     * The end of a successful search: pushes the positions of the cells met
     * walking parent links back from the last cell of the closed chain, the
     * start cell last.
     */
    method PushRoute(chain: seq<int>, outPath: NavigationPath, ghost start: int, ghost graph: seq<seq<Option<int>>>)
      returns (ghost route: seq<int>)
      requires Chain(allNodes, graph, start, chain) && |graph| == |allNodes|
      modifies outPath`waypoints
      ensures Route(graph, route, chain[|chain| - 1], start)
      ensures outPath.waypoints == old(outPath.waypoints) + Positions(allNodes, route)
    {
      var node: Option<int> := Some(chain[|chain| - 1]);
      ghost var j := |chain| - 1;
      route := [];
      while node.Some?
        invariant Walking(graph, chain, start, route, node, j)
        invariant outPath.waypoints == old(outPath.waypoints) + Positions(allNodes, route)
        decreases if node.Some? then j + 1 else 0
      {
        var v := node.value;
        WalkStep(allNodes, graph, start, chain, route, v, j);
        outPath.PushWaypoint(allNodes[v].position);
        assert Positions(allNodes, route + [v]) == Positions(allNodes, route) + [allNodes[v].position];
        route := route + [v];
        node := allNodes[v].parent;
        if node.Some? {
          ghost var pj := j;
          j :| 0 <= j < pj && Walking(graph, chain, start, route, node, j);
        }
      }
    }

    /** The cell FindPath takes a world position to be in: the nearest cell centre. */
    function SearchCell(p: Vec3): (int, int)
      requires nodeSize != 0
      reads this`zeroPos, this`nodeSize
    {
      CellAt(FromCorner(p))
    }

    predicate OnGrid(p: Vec3)
      requires nodeSize != 0
      reads this`zeroPos, this`nodeSize, this`gridWidth, this`gridHeight
    {
      InGrid(gridWidth, gridHeight, SearchCell(p).0, SearchCell(p).1)
    }

    function CellIndex(p: Vec3): int
      requires nodeSize != 0
      reads this`zeroPos, this`nodeSize, this`gridWidth
    {
      Idx(gridWidth, SearchCell(p).0, SearchCell(p).1)
    }

    /**
     * The A* search between the cells two world positions fall in. Outside
     * the grid it fails at once and touches nothing. Otherwise it succeeds
     * exactly when some route of links leads from the start cell to the end
     * cell, and then pushes such a route, end cell first and start cell last.
     * Only the cells' parent, f and g change.
     */
    method FindPath(from: Vec3, to: Vec3, outPath: NavigationPath, dist: (Vec3, Vec3) -> real)
      returns (found: bool, ghost route: seq<int>)
      requires Valid() && nodeSize != 0
      modifies this`allNodes, outPath`waypoints
      ensures Valid() && SameGrid(allNodes, old(allNodes))
      ensures !OnGrid(from) || !OnGrid(to) ==>
        !found && allNodes == old(allNodes) && outPath.waypoints == old(outPath.waypoints)
      ensures OnGrid(from) && OnGrid(to) ==>
        (found <==> Reachable(Graph(allNodes), CellIndex(to), CellIndex(from)))
      ensures found ==> (Route(Graph(allNodes), route, CellIndex(to), CellIndex(from)) &&
                         outPath.waypoints == old(outPath.waypoints) + Positions(allNodes, route))
      ensures !found ==> outPath.waypoints == old(outPath.waypoints)
    {
      var gridFrom := FromCorner(from);
      var gridTo := FromCorner(to);
      var fromX := CDiv(TruncToInt(gridFrom.x), nodeSize);
      var fromZ := CDiv(TruncToInt(gridFrom.z), nodeSize);
      var toX := CDiv(TruncToInt(gridTo.x), nodeSize);
      var toZ := CDiv(TruncToInt(gridTo.z), nodeSize);
      route := [];
      if fromX < 0 || fromX > gridWidth - 1 || fromZ < 0 || fromZ > gridHeight - 1 {
        assert !OnGrid(from);
        return false, route;
      }
      if toX < 0 || toX > gridWidth - 1 || toZ < 0 || toZ > gridHeight - 1 {
        assert !OnGrid(to);
        return false, route;
      }
      IdxInRange(gridWidth, gridHeight, fromX, fromZ);
      IdxInRange(gridWidth, gridHeight, toX, toZ);
      var startNode := (fromZ * gridWidth) + fromX;
      var endNode := (toZ * gridWidth) + toX;
      WiredSound(allNodes, gridWidth, gridHeight);
      assert CellIndex(from) == startNode && CellIndex(to) == endNode;
      found, route := Search(startNode, endNode, outPath, dist);
      SameGridKeeps(allNodes, old(allNodes), gridWidth, gridHeight);
      assert Graph(allNodes) == Graph(old(allNodes));
      if found {
        assert Route(Graph(allNodes), route, CellIndex(to), CellIndex(from));
      }
      if !found {
        forall r
          ensures !Route(Graph(allNodes), r, CellIndex(to), CellIndex(from))
        {
          assert !Route(Graph(old(allNodes)), r, endNode, startNode);
        }
      }
    }

    /**
     * One round of the search: the best node of the open list is closed, and
     * either it is the end node, whose route is pushed onto the path, or its
     * neighbours join the open list.
     */
    method SearchStep(startNode: int, endNode: int, openList: seq<int>, closedList: seq<int>, outPath: NavigationPath,
                      dist: (Vec3, Vec3) -> real, ghost graph: seq<seq<Option<int>>>)
      returns (found: bool, nextOpen: seq<int>, nextClosed: seq<int>, ghost route: seq<int>)
      requires Shaped(allNodes) && graph == Graph(allNodes) && Sound(graph)
      requires 0 <= endNode < |allNodes|
      requires Searching(allNodes, graph, startNode, endNode, openList, closedList) && |openList| > 0
      modifies this`allNodes, outPath`waypoints
      ensures SameGrid(allNodes, old(allNodes)) && Shaped(allNodes) && graph == Graph(allNodes)
      ensures found ==> Route(graph, route, endNode, startNode) &&
                        outPath.waypoints == old(outPath.waypoints) + Positions(allNodes, route)
      ensures !found ==> outPath.waypoints == old(outPath.waypoints) &&
                         Searching(allNodes, graph, startNode, endNode, nextOpen, nextClosed) &&
                         |nextClosed| == |closedList| + 1
    {
      route := [];
      assert InRange(allNodes, openList);
      var currentBestNode, rest := RemoveBestNode(openList);
      PopStep(allNodes, graph, startNode, openList, closedList, BestIndex(allNodes, openList));
      if currentBestNode == endNode {
        route := PushRoute(closedList + [currentBestNode], outPath, startNode, graph);
        return true, [], [], route;
      }
      nextOpen := Expand(currentBestNode, endNode, rest, closedList, dist, startNode, graph);
      SameGridKeeps(allNodes, old(allNodes), 0, 0);
      nextClosed := closedList + [currentBestNode];
      NoDupBound(nextClosed, |allNodes|);
      found := false;
    }

    /** FindPath's search proper, from cell startNode to cell endNode. */
    method Search(startNode: int, endNode: int, outPath: NavigationPath, dist: (Vec3, Vec3) -> real)
      returns (found: bool, ghost route: seq<int>)
      requires Shaped(allNodes) && Sound(Graph(allNodes))
      requires 0 <= startNode < |allNodes| && 0 <= endNode < |allNodes|
      modifies this`allNodes, outPath`waypoints
      ensures SameGrid(allNodes, old(allNodes))
      ensures found <==> Reachable(Graph(old(allNodes)), endNode, startNode)
      ensures found ==> (Route(Graph(old(allNodes)), route, endNode, startNode) &&
                         outPath.waypoints == old(outPath.waypoints) + Positions(allNodes, route))
      ensures !found ==> outPath.waypoints == old(outPath.waypoints)
    {
      route := [];
      allNodes := allNodes[startNode := allNodes[startNode].(f := 0.0, g := 0.0, parent := None)];
      ghost var graph := Graph(allNodes);
      SameGridKeeps(allNodes, old(allNodes), 0, 0);

      var openList := [startNode];
      var closedList: seq<int> := [];
      while |openList| > 0
        invariant SameGrid(allNodes, old(allNodes)) && Shaped(allNodes) && graph == Graph(allNodes)
        invariant outPath.waypoints == old(outPath.waypoints)
        invariant Searching(allNodes, graph, startNode, endNode, openList, closedList)
        decreases |allNodes| - |closedList|
      {
        ghost var nodes1 := allNodes;
        var done;
        done, openList, closedList, route := SearchStep(startNode, endNode, openList, closedList, outPath, dist, graph);
        SameGridTrans(allNodes, nodes1, old(allNodes));
        if done {
          return true, route;
        }
      }
      assert Frontier(allNodes, graph, startNode, [], closedList);
      forall r
        ensures !Route(graph, r, endNode, startNode)
      {
        NoRoute(graph, closedList, r, startNode, endNode);
      }
      return false, route;
    }
  }
}
