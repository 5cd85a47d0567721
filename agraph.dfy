/** The maze solver of `agraph.py`: a graph whose nodes are the grid cells
    holding the same value as the start cell, with edges to the up, left,
    down and right neighbours that are nodes, and a depth-first search for a
    simple path. Drawing the maze and the debugging fields of `Graph` and
    `Vertex` are not modelled. */
module AGraph {
  import opened Wrappers
  import opened Seqs

  /** A grid cell `(row, column)`. */
  type Cell = (int, int)

  // ---------------------------------------------------------------------
  // Neighbours
  // ---------------------------------------------------------------------

  /** The cells `add_edge` is called with for `node`, in call order: up,
      left, down, right. */
  function Candidates(node: Cell): (r: seq<Cell>)
    ensures |r| == 4
  {
    [(node.0 - 1, node.1), (node.0, node.1 - 1), (node.0 + 1, node.1), (node.0, node.1 + 1)]
  }

  /** `a` and `b` are 4-neighbours. */
  predicate Adjacent(a: Cell, b: Cell) {
    || (a.0 == b.0 && (a.1 - b.1 == 1 || b.1 - a.1 == 1))
    || (a.1 == b.1 && (a.0 - b.0 == 1 || b.0 - a.0 == 1))
  }

  /** The elements of `cs` that are in `keys`, in order. */
  function Keep(keys: set<Cell>, cs: seq<Cell>): seq<Cell>
    decreases |cs|
  {
    if |cs| == 0 then []
    else Keep(keys, cs[..|cs| - 1]) + (if cs[|cs| - 1] in keys then [cs[|cs| - 1]] else [])
  }

  /** The adjacency list `map_maze` builds for `node` when `keys` are the
      nodes. */
  function Neighbours(keys: set<Cell>, node: Cell): seq<Cell> {
    Keep(keys, Candidates(node))
  }

  lemma {:induction false} KeepSpec(keys: set<Cell>, cs: seq<Cell>)
    ensures forall x :: x in Keep(keys, cs) <==> x in keys && x in cs
    ensures NoDups(cs) ==> NoDups(Keep(keys, cs))
    decreases |cs|
  {
    if |cs| > 0 {
      var init := cs[..|cs| - 1];
      var x := cs[|cs| - 1];
      KeepSpec(keys, init);
      assert cs == init + [x];
      if NoDups(cs) {
        assert NoDups(init) by {
          forall i, j | 0 <= i < j < |init| ensures init[i] != init[j] {
            assert init[i] == cs[i] && init[j] == cs[j];
          }
        }
        assert x !in init;
      }
    }
  }

  /** An adjacency list holds exactly the 4-neighbours that are nodes, each
      once. */
  lemma NeighboursSpec(keys: set<Cell>, a: Cell)
    ensures forall b :: b in Neighbours(keys, a) <==> b in keys && Adjacent(a, b)
    ensures NoDups(Neighbours(keys, a))
  {
    var cs := Candidates(a);
    KeepSpec(keys, cs);
    forall b ensures b in cs <==> Adjacent(a, b) {
      if Adjacent(a, b) {
        if b.0 == a.0 - 1 { assert b == cs[0]; }
        else if b.1 == a.1 - 1 { assert b == cs[1]; }
        else if b.0 == a.0 + 1 { assert b == cs[2]; }
        else { assert b == cs[3]; }
      }
    }
  }

  // ---------------------------------------------------------------------
  // Building the graph
  // ---------------------------------------------------------------------

  /** Every node's list extended with its neighbours among the nodes: the
      edge loop of `map_maze`. */
  function Linked(m: map<Cell, seq<Cell>>): map<Cell, seq<Cell>> {
    map n | n in m :: m[n] + Neighbours(m.Keys, n)
  }

  /** `nodes[c] = []` for every cell in `cells` (`Graph.__init__`). */
  function Reset(m: map<Cell, seq<Cell>>, cells: set<Cell>): map<Cell, seq<Cell>> {
    map k | k in m.Keys + cells :: if k in cells then [] else m[k]
  }

  /** The value of the start cell, if the start is inside the grid. */
  function StartValue(maze: seq<seq<int>>, start: (nat, nat)): Option<int> {
    if start.0 < |maze| && start.1 < |maze[start.0]| then Some(maze[start.0][start.1]) else None
  }

  predicate HasCell(maze: seq<seq<int>>) {
    exists r :: 0 <= r < |maze| && |maze[r]| > 0
  }

  /** The cells before `(iy, ix)` in row-major order that hold the start
      value. */
  function CellsBefore(maze: seq<seq<int>>, start: (nat, nat), iy: int, ix: int): set<Cell> {
    match StartValue(maze, start)
    case None => {}
    case Some(v) =>
      set r, c | 0 <= r < |maze| && 0 <= c < |maze[r]| && maze[r][c] == v && (r < iy || (r == iy && c < ix)) :: (r, c)
  }

  /** The cells holding the start value. */
  function MazeCells(maze: seq<seq<int>>, start: (nat, nat)): set<Cell> {
    CellsBefore(maze, start, |maze|, 0)
  }

  class Graph {
    /** The adjacency map (the class-level `Graph.nodes`). */
    var nodes: map<Cell, seq<Cell>>

    constructor ()
      ensures nodes == map[]
    {
      nodes := map[];
    }

    /** `Graph.__init__(src)`: `src` becomes a node with no edges, even if
        it already was one. */
    method AddNode(src: Cell)
      modifies this
      ensures nodes == old(nodes)[src := []]
    {
      nodes := nodes[src := []];
    }

    /** `add_edge`: nothing happens when `dest` is not a node; otherwise
        `dest` is appended to the list of `src`, which must be a node. */
    method AddEdge(src: Cell, dest: Cell) returns (r: Result<(), PyError>)
      modifies this
      ensures dest !in old(nodes) ==> nodes == old(nodes) && r == Success(())
      ensures dest in old(nodes) && src !in old(nodes) ==> nodes == old(nodes) && r == Failure(KeyError)
      ensures dest in old(nodes) && src in old(nodes) ==>
        nodes == old(nodes)[src := old(nodes)[src] + [dest]] && r == Success(())
    {
      if dest !in nodes {
        return Success(());
      }
      if src !in nodes {
        return Failure(KeyError);
      }
      nodes := nodes[src := nodes[src] + [dest]];
      r := Success(());
    }

    /** The body of the edge loop of `map_maze` for one node: for `i` in
        `[-1, 1]`, an edge to `(y + i, x)` and to `(y, x + i)`. */
    method LinkNode(node: Cell)
      requires node in nodes
      modifies this
      ensures nodes == old(nodes)[node := old(nodes)[node] + Neighbours(old(nodes).Keys, node)]
    {
      var keys := nodes.Keys;
      var offsets := [-1, 1];
      KeepStart(old(nodes), node, keys);
      for k := 0 to |offsets|
        invariant nodes == old(nodes)[node := old(nodes)[node] + Keep(keys, Candidates(node)[..2 * k])]
        invariant nodes.Keys == keys
      {
        var i := offsets[k];
        KeepPair(keys, node, k, old(nodes)[node]);
        LinkOffset(node, i);
      }
      assert Candidates(node)[..4] == Candidates(node);
    }

    /** One pass of the loop over `[-1, 1]`: the edges to `(y + i, x)` and
        to `(y, x + i)`, each added only when that cell is a node. */
    method LinkOffset(node: Cell, i: int)
      requires node in nodes
      modifies this
      ensures var a, b := (node.0 + i, node.1), (node.0, node.1 + i); var ks := old(nodes).Keys;
        nodes == old(nodes)[node := old(nodes)[node] + (if a in ks then [a] else []) + (if b in ks then [b] else [])]
    {
      var a, b := (node.0 + i, node.1), (node.0, node.1 + i);
      ghost var m0 := nodes;
      var _ := AddEdge(node, a);
      assert nodes == m0[node := m0[node] + (if a in m0 then [a] else [])] by {
        if a !in m0 {
          assert m0[node] + [] == m0[node];
          assert m0[node := m0[node]] == m0;
        }
      }
      ghost var m1 := nodes;
      var _ := AddEdge(node, b);
      assert nodes == m1[node := m1[node] + (if b in m1 then [b] else [])] by {
        if b !in m1 {
          assert m1[node] + [] == m1[node];
          assert m1[node := m1[node]] == m1;
        }
      }
    }

    /** The edge loop of `map_maze` over every node (in any order: each
        pass only extends its own node's list). */
    method LinkAll()
      modifies this
      ensures nodes == Linked(old(nodes))
    {
      var todo := nodes.Keys;
      while todo != {}
        invariant todo <= nodes.Keys && nodes.Keys == old(nodes).Keys
        invariant forall n :: n in nodes && n !in todo ==> nodes[n] == old(nodes)[n] + Neighbours(old(nodes).Keys, n)
        invariant forall n :: n in todo ==> nodes[n] == old(nodes)[n]
        decreases |todo|
      {
        var node :| node in todo;
        LinkNode(node);
        todo := todo - {node};
      }
      assert nodes == Linked(old(nodes));
    }

    /** `map_maze` up to the search: make every cell holding the start
        cell's value a node, then add the edges. Reading the start cell
        raises `IndexError` when the start lies outside the grid, at the
        first cell visited. */
    method MapMaze(maze: seq<seq<int>>, start: (nat, nat)) returns (r: Result<(), PyError>)
      modifies this
      ensures r.Failure? <==> StartValue(maze, start).None? && HasCell(maze)
      ensures r.Failure? ==> r.error == IndexError && nodes == old(nodes)
      ensures r.Success? ==> nodes == Linked(Reset(old(nodes), MazeCells(maze, start)))
    {
      for iy := 0 to |maze|
        invariant nodes == Reset(old(nodes), CellsBefore(maze, start, iy, 0))
        invariant StartValue(maze, start).None? ==> !exists row :: 0 <= row < iy && |maze[row]| > 0
      {
        for ix := 0 to |maze[iy]|
          invariant nodes == Reset(old(nodes), CellsBefore(maze, start, iy, ix))
          invariant StartValue(maze, start).None? ==> ix == 0
        {
          if !(start.0 < |maze| && start.1 < |maze[start.0]|) {
            ResetEmpty(old(nodes));
            return Failure(IndexError);
          }
          CellsStep(maze, start, iy, ix);
          if maze[iy][ix] == maze[start.0][start.1] {
            AddNode((iy, ix));
          }
          ResetStep(old(nodes), CellsBefore(maze, start, iy, ix), (iy, ix), CellsBefore(maze, start, iy, ix + 1));
        }
        CellsRow(maze, start, iy);
      }
      LinkAll();
      r := Success(());
    }
  }

  lemma KeepStep(keys: set<Cell>, cs: seq<Cell>, k: nat)
    requires k < |cs|
    ensures Keep(keys, cs[..k + 1]) == Keep(keys, cs[..k]) + (if cs[k] in keys then [cs[k]] else [])
  {
    assert cs[..k + 1][..k] == cs[..k];
  }

  lemma KeepStart(m: map<Cell, seq<Cell>>, node: Cell, keys: set<Cell>)
    requires node in m
    ensures m == m[node := m[node] + Keep(keys, Candidates(node)[..0])]
  {
    assert m[node] + [] == m[node];
  }

  /** One pass of the loop over `[-1, 1]` adds the next two candidates that
      are nodes. */
  lemma KeepPair(keys: set<Cell>, node: Cell, k: nat, before: seq<Cell>)
    requires k < 2
    ensures var cs := Candidates(node); var a, b := cs[2 * k], cs[2 * k + 1];
      && a == (node.0 + [-1, 1][k], node.1) && b == (node.0, node.1 + [-1, 1][k])
      && before + Keep(keys, cs[..2 * k + 2]) ==
         before + Keep(keys, cs[..2 * k]) + (if a in keys then [a] else []) + (if b in keys then [b] else [])
  {
    var cs := Candidates(node);
    KeepStep(keys, cs, 2 * k);
    KeepStep(keys, cs, 2 * k + 1);
  }

  lemma ResetEmpty(m: map<Cell, seq<Cell>>)
    ensures Reset(m, {}) == m
  {
  }

  lemma ResetStep(m: map<Cell, seq<Cell>>, before: set<Cell>, c: Cell, after: set<Cell>)
    requires after == before + {c} || after == before
    ensures after == before + {c} ==> Reset(m, before)[c := []] == Reset(m, after)
    ensures after == before ==> Reset(m, before) == Reset(m, after)
  {
  }

  lemma CellsStep(maze: seq<seq<int>>, start: (nat, nat), iy: nat, ix: nat)
    requires iy < |maze| && ix < |maze[iy]| && StartValue(maze, start).Some?
    ensures maze[iy][ix] == StartValue(maze, start).value ==>
      CellsBefore(maze, start, iy, ix + 1) == CellsBefore(maze, start, iy, ix) + {(iy, ix)}
    ensures maze[iy][ix] != StartValue(maze, start).value ==>
      CellsBefore(maze, start, iy, ix + 1) == CellsBefore(maze, start, iy, ix)
  {
  }

  lemma CellsRow(maze: seq<seq<int>>, start: (nat, nat), iy: nat)
    requires iy < |maze|
    ensures CellsBefore(maze, start, iy, |maze[iy]|) == CellsBefore(maze, start, iy + 1, 0)
  {
  }

  /** On a fresh graph the nodes are exactly the cells holding the start
      value, and each list holds exactly its 4-neighbours among them, in
      the order up, left, down, right, each once. */
  lemma MapMazeFresh(maze: seq<seq<int>>, start: (nat, nat))
    ensures var g := Linked(Reset(map[], MazeCells(maze, start)));
      && g.Keys == MazeCells(maze, start)
      && forall n :: n in g ==> g[n] == Neighbours(MazeCells(maze, start), n)
  {
    var cells := MazeCells(maze, start);
    var g := Linked(Reset(map[], cells));
    assert Reset(map[], cells).Keys == cells;
    forall n | n in g ensures g[n] == Neighbours(cells, n) {
      assert Reset(map[], cells)[n] == [];
    }
  }

  /** In a freshly built graph adjacency is symmetric. */
  lemma MapMazeSymmetric(maze: seq<seq<int>>, start: (nat, nat), a: Cell, b: Cell)
    requires var g := Linked(Reset(map[], MazeCells(maze, start))); a in g && b in g
    ensures var g := Linked(Reset(map[], MazeCells(maze, start))); b in g[a] <==> a in g[b]
  {
    MapMazeFresh(maze, start);
    var cells := MazeCells(maze, start);
    NeighboursSpec(cells, a);
    NeighboursSpec(cells, b);
  }

  // ---------------------------------------------------------------------
  // find_path
  // ---------------------------------------------------------------------

  /** Every cell the adjacency map mentions. */
  function Universe(nodes: map<Cell, seq<Cell>>): set<Cell> {
    nodes.Keys + (set k, n | k in nodes && n in nodes[k] :: n)
  }

  function Elems(path: seq<Cell>): set<Cell> {
    set x | x in path
  }

  /** Extending the path by a cell of the universe that is new shrinks the
      set of cells still unvisited. */
  lemma ElemsStep(nodes: map<Cell, seq<Cell>>, path: seq<Cell>, x: Cell)
    ensures Elems(path + [x]) == Elems(path) + {x}
    ensures x in path ==> Elems(path + [x]) == Elems(path)
    ensures x in Universe(nodes) && x !in path ==>
      |Universe(nodes) - Elems(path + [x])| < |Universe(nodes) - Elems(path)|
  {
    var u := Universe(nodes);
    assert Elems(path + [x]) == Elems(path) + {x};
    if x in u && x !in path {
      assert u - Elems(path + [x]) == (u - Elems(path)) - {x};
    }
  }

  /** `find_path(maze_nodes, start, end, path)`: extend the path by
      `start`; stop at `end`; give up at a cell that is not a node;
      otherwise try each neighbour not yet on the path, in list order, and
      return the first success. */
  function FindPath(nodes: map<Cell, seq<Cell>>, start: Cell, end: Cell, path: seq<Cell>): Option<seq<Cell>>
    decreases |Universe(nodes) - Elems(path)|, if start in path then 1 else 0, 0, 0
  {
    var pp := path + [start];
    if start == end then Some(pp)
    else if start !in nodes then None
    else
      assert start in Universe(nodes);
      ElemsStep(nodes, path, start);
      FindFirst(nodes, nodes[start], end, pp, 0)
  }

  /** The loop of `find_path` over the neighbours from index `i` on. */
  function FindFirst(nodes: map<Cell, seq<Cell>>, nbrs: seq<Cell>, end: Cell, pp: seq<Cell>, i: nat): Option<seq<Cell>>
    decreases |Universe(nodes) - Elems(pp)|, 0, 1, |nbrs| - i
  {
    if i >= |nbrs| then None
    else if nbrs[i] !in pp then
      match FindPath(nodes, nbrs[i], end, pp)
      case Some(p) => Some(p)
      case None => FindFirst(nodes, nbrs, end, pp, i + 1)
    else FindFirst(nodes, nbrs, end, pp, i + 1)
  }

  predicate IsEdge(nodes: map<Cell, seq<Cell>>, a: Cell, b: Cell) {
    a in nodes && b in nodes[a]
  }

  /** `p` is `path` followed by a walk from `start` to `end` along edges
      that repeats no cell and avoids `path`. */
  ghost predicate Extends(nodes: map<Cell, seq<Cell>>, path: seq<Cell>, start: Cell, end: Cell, p: seq<Cell>) {
    && |p| > |path| && p[..|path|] == path && p[|path|] == start && p[|p| - 1] == end
    && (forall i :: |path| <= i < |p| - 1 ==> IsEdge(nodes, p[i], p[i + 1]))
    && (forall i, j :: |path| <= i < j < |p| ==> p[i] != p[j])
    && (forall i :: |path| < i < |p| ==> p[i] !in path)
  }

  /** A success of the neighbour loop is the success of one neighbour not
      on the path. */
  lemma {:induction false} FindFirstSome(nodes: map<Cell, seq<Cell>>, nbrs: seq<Cell>, end: Cell, pp: seq<Cell>, i: nat)
    ensures FindFirst(nodes, nbrs, end, pp, i).Some? ==>
      exists j :: i <= j < |nbrs| && nbrs[j] !in pp && FindPath(nodes, nbrs[j], end, pp) == FindFirst(nodes, nbrs, end, pp, i)
    decreases |nbrs| - i
  {
    if i < |nbrs| {
      FindFirstSome(nodes, nbrs, end, pp, i + 1);
    }
  }

  /** Soundness: a start equal to the end gives `path + [start]`; a start
      that is not a node (and not the end) gives `None`; any result is the
      path followed by a simple walk from start to end along edges. */
  lemma {:induction false} FindPathSound(nodes: map<Cell, seq<Cell>>, start: Cell, end: Cell, path: seq<Cell>)
    ensures start == end ==> FindPath(nodes, start, end, path) == Some(path + [start])
    ensures start != end && start !in nodes ==> FindPath(nodes, start, end, path) == None
    ensures FindPath(nodes, start, end, path).Some? ==> Extends(nodes, path, start, end, FindPath(nodes, start, end, path).value)
    decreases |Universe(nodes) - Elems(path)|, if start in path then 1 else 0
  {
    var pp := path + [start];
    if start != end && start in nodes && FindPath(nodes, start, end, path).Some? {
      assert start in Universe(nodes);
      ElemsStep(nodes, path, start);
      var nbrs := nodes[start];
      FindFirstSome(nodes, nbrs, end, pp, 0);
      var j :| 0 <= j < |nbrs| && nbrs[j] !in pp && FindPath(nodes, nbrs[j], end, pp) == FindFirst(nodes, nbrs, end, pp, 0);
      FindPathSound(nodes, nbrs[j], end, pp);
      ExtendsStep(nodes, path, start, nbrs[j], end, FindPath(nodes, start, end, path).value);
    }
  }

  /** A step from `start` to a neighbour followed by a simple walk that
      avoids `path + [start]` is a simple walk from `start`. */
  lemma ExtendsStep(nodes: map<Cell, seq<Cell>>, path: seq<Cell>, start: Cell, nbr: Cell, end: Cell, p: seq<Cell>)
    requires IsEdge(nodes, start, nbr) && nbr !in path + [start]
    requires Extends(nodes, path + [start], nbr, end, p)
    ensures Extends(nodes, path, start, end, p)
  {
    var pp := path + [start];
    assert p[..|path|] == pp[..|path|] == path;
    assert p[|path|] == pp[|path|] == start;
    forall i | |path| < i < |p| ensures p[i] !in path && p[i] != start {
      assert p[i] !in pp;
    }
  }

  /** A neighbour not on the path that leads to the end makes the loop
      succeed (perhaps through an earlier neighbour). */
  lemma {:induction false} FindFirstReaches(nodes: map<Cell, seq<Cell>>, nbrs: seq<Cell>, end: Cell, pp: seq<Cell>, i: nat, k: nat)
    requires i <= k < |nbrs| && nbrs[k] !in pp && FindPath(nodes, nbrs[k], end, pp).Some?
    ensures FindFirst(nodes, nbrs, end, pp, i).Some?
    decreases k - i
  {
    if i < k {
      FindFirstReaches(nodes, nbrs, end, pp, i + 1, k);
    }
  }

  /** A walk along edges that repeats no cell. */
  ghost predicate SimplePath(nodes: map<Cell, seq<Cell>>, q: seq<Cell>) {
    && |q| >= 1
    && (forall i :: 0 <= i < |q| - 1 ==> IsEdge(nodes, q[i], q[i + 1]))
    && NoDups(q)
  }

  /** Completeness: if a simple path from start to end avoids the prefix,
      the search finds a path. */
  lemma {:induction false} FindPathComplete(nodes: map<Cell, seq<Cell>>, path: seq<Cell>, q: seq<Cell>)
    requires SimplePath(nodes, q) && forall x :: x in q ==> x !in path
    ensures FindPath(nodes, q[0], q[|q| - 1], path).Some?
    decreases |q|
  {
    var start, end := q[0], q[|q| - 1];
    if start != end {
      assert |q| >= 2;
      assert IsEdge(nodes, q[0], q[1]);
      var pp := path + [start];
      var nbrs := nodes[start];
      var k :| 0 <= k < |nbrs| && nbrs[k] == q[1];
      var rest := q[1..];
      assert forall i :: 0 <= i < |rest| ==> rest[i] == q[i + 1];
      forall x | x in rest ensures x !in pp {
        var i :| 0 <= i < |rest| && rest[i] == x;
        assert q[i + 1] != q[0];
      }
      assert SimplePath(nodes, rest);
      FindPathComplete(nodes, pp, rest);
      FindFirstReaches(nodes, nbrs, end, pp, 0, k);
    }
  }
}
