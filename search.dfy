/** The search (Maze.solves in maze.py): frontier against explored set, and
    the path rebuilt from parent links. */
module SearchEngine {
  import opened Basics
  import opened MazeText
  import opened Frontiers
  import opened Neighborhood
  import opened SearchTheory

  /** solves(): a frontier holding the root at start, an empty explored set,
      and expansion steps until one of them finishes. */
  method Search(g: Grid, policy: Policy, idx: Indexing) returns (r: SearchResult)
    requires g.Valid()
    ensures CorrectResult(g, idx, r)
  {
    var numExplored: nat := 0;
    var frontier := new Frontier(policy);
    frontier.Add(Node(g.start, None, None));
    var explored: set<Coord> := {};
    var arena: seq<Node> := [];
    InitInv(g, idx);

    while true
      invariant frontier.policy == policy
      invariant SearchInv(g, idx, arena, explored, frontier.nodes, numExplored)
      decreases Box(g) - (explored + StatesOf(frontier.nodes)), |frontier.nodes|
    {
      var done;
      ghost var seen0, len0 := explored + StatesOf(frontier.nodes), |frontier.nodes|;
      done, arena, explored, numExplored := Step(g, idx, frontier, arena, explored, numExplored);
      if done.Some? {
        return done.value;
      }
      assert Decreased(g, seen0, len0, explored + StatesOf(frontier.nodes), |frontier.nodes|);
    }
  }

  /** One pass of the loop of solves(): fail on an empty frontier; take a
      node off; finish at the goal; otherwise explore the node. */
  method Step(g: Grid, idx: Indexing, frontier: Frontier, arena: seq<Node>, explored: set<Coord>, numExplored: nat)
    returns (done: Option<SearchResult>, arena': seq<Node>, explored': set<Coord>, numExplored': nat)
    requires g.Valid() && SearchInv(g, idx, arena, explored, frontier.nodes, numExplored)
    modifies frontier
    ensures done.Some? ==> CorrectResult(g, idx, done.value)
    ensures done.None? ==> SearchInv(g, idx, arena', explored', frontier.nodes, numExplored')
    ensures done.None? ==> Decreased(g, explored + StatesOf(old(frontier.nodes)), |old(frontier.nodes)|,
                                     explored' + StatesOf(frontier.nodes), |frontier.nodes|)
    ensures old(frontier.nodes) == [] ==> done == Some(SearchResult(Failure(NoSolution), explored, numExplored))
    ensures old(frontier.nodes) != [] && Taken(frontier.policy, old(frontier.nodes)).state == g.goal ==>
              done.Some? && done.value.outcome.Success? && done.value.explored == explored &&
              done.value.numExplored == numExplored + 1
    ensures old(frontier.nodes) != [] && Taken(frontier.policy, old(frontier.nodes)).state != g.goal ==>
              var node := Taken(frontier.policy, old(frontier.nodes));
              && done.None?
              && arena' == arena + [node] && explored' == explored + {node.state} && numExplored' == numExplored + 1
              && frontier.nodes == Grow(|arena|, explored', Remaining(frontier.policy, old(frontier.nodes)), ValidMoves(g, node.state, idx))
  {
    arena', explored', numExplored' := arena, explored, numExplored;
    if frontier.IsEmpty() {
      NoSolutionCorrect(g, idx, arena, explored, numExplored);
      return Some(SearchResult(Failure(NoSolution), explored, numExplored)), arena', explored', numExplored';
    }

    ghost var before := frontier.nodes;
    var node := Pop(frontier);
    numExplored' := numExplored + 1;

    if node.state == g.goal {
      var r := Finish(g, idx, arena, explored, numExplored, node, before);
      return Some(r), arena', explored', numExplored';
    }

    done := None;
    arena', explored' := Explore(g, idx, frontier, arena, explored, numExplored, node, before);
  }

  /** frontier.remove() on a frontier known not to be empty, with what that
      does to the states it holds. */
  method Pop(frontier: Frontier) returns (node: Node)
    requires frontier.nodes != [] && DistinctStates(frontier.nodes)
    modifies frontier
    ensures node in old(frontier.nodes)
    ensures forall n :: n in frontier.nodes ==> n in old(frontier.nodes)
    ensures DistinctStates(frontier.nodes) && StatesOf(frontier.nodes) == StatesOf(old(frontier.nodes)) - {node.state}
    ensures |frontier.nodes| == |old(frontier.nodes)| - 1
    ensures frontier.policy == Stack ==> node == old(frontier.nodes)[|old(frontier.nodes)| - 1] && frontier.nodes == old(frontier.nodes)[..|old(frontier.nodes)| - 1]
    ensures frontier.policy == Queue ==> node == old(frontier.nodes)[0] && frontier.nodes == old(frontier.nodes)[1..]
  {
    var removed := frontier.Remove();
    node := removed.value;
    RemoveTakesOne(frontier.policy, old(frontier.nodes), frontier.nodes, node);
  }

  /** The goal came off the frontier: rebuild the solution from the parent
      links; the count includes the goal node. */
  method Finish(g: Grid, idx: Indexing, arena: seq<Node>, explored: set<Coord>, numExplored: nat,
                node: Node, ghost before: seq<Node>)
    returns (r: SearchResult)
    requires g.Valid() && SearchInv(g, idx, arena, explored, before, numExplored)
    requires node in before && node.state == g.goal
    ensures CorrectResult(g, idx, r)
    ensures r == SearchResult(r.outcome, explored, numExplored + 1) && r.outcome.Success?
  {
    var actions, cells := Backtrack(g, idx, arena, node);
    SolvedCorrect(g, idx, arena, explored, before, numExplored, Solution(actions, cells));
    r := SearchResult(Success(Solution(actions, cells)), explored, numExplored + 1);
  }

  /** The rest of the loop of solves() for a node that is not the goal: add
      its state to the explored set and push its new neighbours. */
  method Explore(g: Grid, idx: Indexing, frontier: Frontier, arena: seq<Node>, explored: set<Coord>, numExplored: nat,
                 node: Node, ghost before: seq<Node>)
    returns (arena': seq<Node>, explored': set<Coord>)
    requires g.Valid() && SearchInv(g, idx, arena, explored, before, numExplored)
    requires node in before && node.state != g.goal
    requires forall n :: n in frontier.nodes ==> n in before
    requires DistinctStates(frontier.nodes) && StatesOf(frontier.nodes) == StatesOf(before) - {node.state}
    requires |frontier.nodes| == |before| - 1
    modifies frontier
    ensures SearchInv(g, idx, arena', explored', frontier.nodes, numExplored + 1)
    ensures Decreased(g, explored + StatesOf(before), |before|, explored' + StatesOf(frontier.nodes), |frontier.nodes|)
    ensures explored' == explored + {node.state} && arena' == arena + [node]
    ensures frontier.nodes == Grow(|arena|, explored', old(frontier.nodes), ValidMoves(g, node.state, idx))
  {
    ghost var mid := frontier.nodes;
    PopFrontier(g, idx, arena, explored, before, mid, node);
    PopClosed(g, idx, explored, before, mid, node);
    PopCounts(g, explored, before, mid, node, numExplored);
    ArenaGrow(g, idx, arena, node);
    StatesOfAppend(arena, node);
    explored' := explored + {node.state};
    arena' := arena + [node];

    var moves := Neighbors(g, node.state, idx);
    var parent := |arena|;
    AddChildren(frontier, parent, explored', moves);
    assert arena'[parent] == node;
    GrowKeepsInv(g, idx, arena', explored', parent, mid, moves);
    assert explored == explored' - {node.state};
    ChildrenInv(g, idx, arena', explored', node, mid, frontier.nodes, numExplored + 1);
    ExploreProgress(g, idx, arena', explored', mid, frontier.nodes, explored + StatesOf(before), |before|);
  }

  /** The inner loop of solves(): for each move in turn, push the child node
      under arena entry `parent` when the move's target is neither in the
      frontier nor explored. */
  method AddChildren(frontier: Frontier, parent: nat, explored: set<Coord>, moves: seq<Move>)
    modifies frontier
    ensures frontier.nodes == Grow(parent, explored, old(frontier.nodes), moves)
  {
    ghost var nodes := frontier.nodes;
    for k := 0 to |moves|
      invariant frontier.nodes == Grow(parent, explored, nodes, moves[..k])
    {
      ghost var cur := frontier.nodes;
      var m := moves[k];
      var push := !frontier.ContainsState(m.target) && m.target !in explored;
      if push {
        frontier.Add(Node(m.target, Some(parent), Some(m.action)));
      }
      GrowStep(parent, explored, nodes, moves, k, cur, push, frontier.nodes);
    }
    assert moves[..|moves|] == moves;
  }

  /** The parent walk at the goal: collect (action, state) from the goal node
      back to the root, then reverse both lists. */
  method Backtrack(g: Grid, idx: Indexing, arena: seq<Node>, goalNode: Node) returns (actions: seq<Action>, cells: seq<Coord>)
    requires g.Valid() && ArenaLinked(g, idx, arena) && Linked(g, idx, arena, goalNode)
    requires goalNode.state == g.goal
    ensures ValidSolution(g, idx, Solution(actions, cells))
  {
    actions, cells := [], [];
    var node := goalNode;
    while node.parent.Some?
      invariant Linked(g, idx, arena, node)
      invariant IsPath(g, idx, node.state, Reverse(actions), Reverse(cells))
      invariant End(node.state, Reverse(cells)) == g.goal
      invariant g.start !in Reverse(cells)
      decreases if node.parent.Some? then node.parent.value + 1 else 0
    {
      var p := node.parent.value;
      PathPrepend(g, idx, arena[p].state, node.action.value, node.state, Reverse(actions), Reverse(cells));
      ReverseSnoc(actions, node.action.value);
      ReverseSnoc(cells, node.state);
      actions := actions + [node.action.value];
      cells := cells + [node.state];
      assert Linked(g, idx, arena[..p], arena[p]);
      LinkedGrow(g, idx, arena[..p], arena, arena[p]);
      node := arena[p];
    }
    actions := Reverse(actions);
    cells := Reverse(cells);
  }

  // ---------------------------------------------------------------------------
  // The maze object
  // ---------------------------------------------------------------------------

  /** Maze: the parsed grid, and the attributes solves() sets. */
  class Maze {
    const grid: Grid
    var solution: Option<Solution>
    var explored: set<Coord>
    var numExplored: nat

    constructor (g: Grid)
      requires g.Valid()
      ensures grid == g && solution == None && explored == {} && numExplored == 0
    {
      grid := g;
      solution := None;
      explored := {};
      numExplored := 0;
    }

    /** Maze(filename) once the file is read: parse, then build the object. */
    static method FromText(contents: string) returns (r: Result<Maze>)
      ensures r.Failure? <==> Count(contents, 'A') != 1 || Count(contents, 'B') != 1
      ensures r.Failure? ==> r.error == (if Count(contents, 'A') != 1 then BadStartCount else BadGoalCount)
      ensures r.Success? ==> fresh(r.value) && ParsedFrom(r.value.grid, SplitLines(contents)) && r.value.solution == None
    {
      var parsed := Parse(contents);
      match parsed
      case Failure(e) =>
        r := Failure(e);
      case Success(g) =>
        var m := new Maze(g);
        r := Success(m);
    }

    /** solves(): a stack frontier, neighbours looked up as Python indexes. On
        success self.solution is set; on failure it is left as it was. */
    method Solves() returns (outcome: Result<Solution>)
      requires grid.Valid()
      modifies this
      ensures CorrectResult(grid, PythonIndex, SearchResult(outcome, explored, numExplored))
      ensures outcome.Success? ==> solution == Some(outcome.value)
      ensures outcome.Failure? ==> solution == old(solution)
    {
      var r := Search(grid, Stack, PythonIndex);
      explored := r.explored;
      numExplored := r.numExplored;
      outcome := r.outcome;
      if outcome.Success? {
        solution := Some(outcome.value);
      }
    }
  }
}
