/** The neighbour generator (Maze.neighbors in maze.py) and the two readings
    of its grid lookup. */
module Neighborhood {
  import opened Basics
  import opened MazeText

  /** How a candidate target is checked against the grid.
      PythonIndex is maze.py as written: `self.walls[r][c]` inside a
      try/except IndexError, so a negative index counts from the end.
      BoundsChecked is the evidently intended check that the target lies in
      [0, height) x [0, width) and is not a wall. */
  datatype Indexing = PythonIndex | BoundsChecked

  /** Python's resolution of index n into a list of length len: None where
      Python raises IndexError. */
  function PyIndex(n: int, len: nat): (k: Option<nat>)
    ensures k.Some? <==> -(len as int) <= n < len
    ensures k.Some? ==> k.value < len && k.value == n % len
  {
    if 0 <= n < len then Some(n) else if -(len as int) <= n < 0 then Some(n + len) else None
  }

  /** walls[t.row][t.col] evaluated as Python does; None for IndexError. */
  function Lookup(walls: seq<seq<bool>>, t: Coord): (r: Option<bool>)
    ensures r.Some? <==> -|walls| <= t.row < |walls| && -|walls[t.row % |walls|]| <= t.col < |walls[t.row % |walls|]|
    ensures r.Some? ==> r == Some(walls[t.row % |walls|][t.col % |walls[t.row % |walls|]|])
  {
    match PyIndex(t.row, |walls|)
    case None => None
    case Some(r) =>
      match PyIndex(t.col, |walls[r]|)
      case None => None
      case Some(c) => Some(walls[r][c])
  }

  /** Whether a candidate target is kept. */
  function Admits(g: Grid, t: Coord, idx: Indexing): (b: bool)
    ensures b ==> Lookup(g.walls, t) == Some(false)
    ensures idx == PythonIndex && Lookup(g.walls, t) == Some(false) ==> b
    ensures idx == BoundsChecked ==> (b <==> g.InGrid(t) && t.row < |g.walls| && t.col < |g.walls[t.row]| && !g.walls[t.row][t.col])
  {
    match idx
    case PythonIndex => Lookup(g.walls, t) == Some(false)
    case BoundsChecked => g.InGrid(t) && Lookup(g.walls, t) == Some(false)
  }

  /** The four candidates, in the order maze.py lists them. */
  function Candidates(s: Coord): (ms: seq<Move>)
    ensures |ms| == 4
    ensures forall i :: 0 <= i < 4 ==> Rank(ms[i].action) == i && ms[i].target == Apply(s, ms[i].action)
  {
    [Move(Up, Apply(s, Up)), Move(Down, Apply(s, Down)), Move(Left, Apply(s, Left)), Move(Right, Apply(s, Right))]
  }

  /** The moves of `ms` whose target is admitted, in their order. */
  function Keep(g: Grid, idx: Indexing, ms: seq<Move>): (kept: seq<Move>)
    ensures |kept| <= |ms|
    ensures forall m :: m in kept ==> m in ms && Admits(g, m.target, idx)
  {
    if ms == [] then []
    else
      var last := ms[|ms| - 1];
      Keep(g, idx, ms[..|ms| - 1]) + (if Admits(g, last.target, idx) then [last] else [])
  }

  /** The result of neighbors(s). */
  function ValidMoves(g: Grid, s: Coord, idx: Indexing): (ms: seq<Move>)
    ensures |ms| <= 4
    ensures forall m :: m in ms ==> m.target == Apply(s, m.action) && Admits(g, m.target, idx)
  {
    Keep(g, idx, Candidates(s))
  }

  /** Maze.neighbors: try up, down, left and right, keep those the lookup admits. */
  method Neighbors(g: Grid, s: Coord, idx: Indexing) returns (result: seq<Move>)
    ensures result == ValidMoves(g, s, idx)
  {
    var candidates := Candidates(s);
    result := [];
    for k := 0 to |candidates|
      invariant result == Keep(g, idx, candidates[..k])
    {
      assert candidates[..k + 1][..k] == candidates[..k];
      var m := candidates[k];
      match idx
      case PythonIndex =>
        var found := Lookup(g.walls, m.target);
        if found == Some(false) {
          result := result + [m];
        }
      case BoundsChecked =>
        if 0 <= m.target.row < g.height && 0 <= m.target.col < g.width && Lookup(g.walls, m.target) == Some(false) {
          result := result + [m];
        }
    }
    assert candidates[..|candidates|] == candidates;
  }

  // ---------------------------------------------------------------------------
  // What the neighbour generator promises
  // ---------------------------------------------------------------------------

  lemma {:induction false} KeepMembers(g: Grid, idx: Indexing, ms: seq<Move>, m: Move)
    ensures m in Keep(g, idx, ms) <==> m in ms && Admits(g, m.target, idx)
  {
    if ms != [] {
      var init, last := ms[..|ms| - 1], ms[|ms| - 1];
      KeepMembers(g, idx, init, m);
      assert ms == init + [last];
    }
  }

  /** Moves of `ms` in increasing Rank order. */
  ghost predicate InTryOrder(ms: seq<Move>)
  {
    forall i, j :: 0 <= i < j < |ms| ==> Rank(ms[i].action) < Rank(ms[j].action)
  }

  lemma {:induction false} KeepInOrder(g: Grid, idx: Indexing, ms: seq<Move>)
    requires InTryOrder(ms)
    ensures InTryOrder(Keep(g, idx, ms))
  {
    if ms != [] {
      var init, last := ms[..|ms| - 1], ms[|ms| - 1];
      KeepInOrder(g, idx, init);
      var kept := Keep(g, idx, init);
      forall m | m in kept
        ensures Rank(m.action) < Rank(last.action)
      {
        KeepMembers(g, idx, init, m);
      }
    }
  }

  /** A move is returned exactly when it is one of the four candidates and the
      lookup admits its target; each is one unit step in the direction its
      action names; and they come in the order up, down, left, right. */
  lemma NeighborsSpec(g: Grid, s: Coord, idx: Indexing)
    ensures forall m :: m in ValidMoves(g, s, idx) <==> m in Candidates(s) && Admits(g, m.target, idx)
    ensures forall m :: m in ValidMoves(g, s, idx) ==> m.target == Apply(s, m.action)
    ensures InTryOrder(ValidMoves(g, s, idx))
    ensures |ValidMoves(g, s, idx)| <= 4
  {
    forall m
      ensures m in ValidMoves(g, s, idx) <==> m in Candidates(s) && Admits(g, m.target, idx)
    {
      KeepMembers(g, idx, Candidates(s), m);
    }
    KeepInOrder(g, idx, Candidates(s));
    KeepLength(g, idx, Candidates(s));
  }

  lemma {:induction false} KeepLength(g: Grid, idx: Indexing, ms: seq<Move>)
    ensures |Keep(g, idx, ms)| <= |ms|
  {
    if ms != [] {
      KeepLength(g, idx, ms[..|ms| - 1]);
    }
  }

  /** The box [-height, height) x [-width, width): every coordinate that the
      Python lookup can resolve on a valid grid. */
  predicate InBox(g: Grid, t: Coord)
  {
    -(g.height as int) <= t.row < g.height && -(g.width as int) <= t.col < g.width
  }

  /** Whatever the indexing, an admitted target is an open cell in the box,
      and no target at row >= height or column >= width ever is admitted;
      with bounds checking it is in the grid. */
  lemma AdmittedTargets(g: Grid, t: Coord, idx: Indexing)
    requires g.Valid() && Admits(g, t, idx)
    ensures InBox(g, t)
    ensures t.row < g.height && t.col < g.width
    ensures idx == BoundsChecked ==> g.InGrid(t) && !g.walls[t.row][t.col]
  {
  }

  /** In the grid, the Python lookup is the plain lookup. */
  lemma LookupInGrid(g: Grid, t: Coord)
    requires g.Valid() && g.InGrid(t)
    ensures Lookup(g.walls, t) == Some(g.walls[t.row][t.col])
  {
  }

  /** With a negative index the Python lookup reads the cell counted from the
      far edge: what the grid holds at (row mod height, col mod width). */
  lemma LookupWraps(g: Grid, t: Coord)
    requires g.Valid() && InBox(g, t)
    ensures Lookup(g.walls, t) == Some(g.walls[t.row % g.height][t.col % g.width])
  {
  }
}
