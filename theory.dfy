/** What the search of Maze.solves promises, and the facts its loop keeps:
    paths, reachability, parent links and the loop invariant. */
module SearchTheory {
  import opened Basics
  import opened MazeText
  import opened Frontiers
  import opened Neighborhood

  /** The pair (actions, cells) that maze.py stores in self.solution. */
  datatype Solution = Solution(actions: seq<Action>, cells: seq<Coord>)

  /** What solves() leaves behind: the solution or the failure, the explored
      set and the number of nodes taken off the frontier. */
  datatype SearchResult = SearchResult(outcome: Result<Solution>, explored: set<Coord>, numExplored: nat)

  // ---------------------------------------------------------------------------
  // Paths and reachability
  // ---------------------------------------------------------------------------

  /** Where a walk of `cells` that leaves `from` ends. */
  function End(from: Coord, cells: seq<Coord>): Coord
  {
    if cells == [] then from else cells[|cells| - 1]
  }

  /** Each (actions[i], cells[i]) is one of the moves the neighbour generator
      offers from the cell before it, the first from `from`. */
  ghost predicate IsPath(g: Grid, idx: Indexing, from: Coord, actions: seq<Action>, cells: seq<Coord>)
  {
    && |actions| == |cells|
    && forall i :: 0 <= i < |cells| ==> StepOk(g, idx, from, actions, cells, i)
  }

  /** Step i of a walk is a neighbour move out of the cell before it. */
  ghost predicate StepOk(g: Grid, idx: Indexing, from: Coord, actions: seq<Action>, cells: seq<Coord>, i: nat)
    requires i < |actions| && i < |cells|
  {
    Move(actions[i], cells[i]) in ValidMoves(g, if i == 0 then from else cells[i - 1], idx)
  }

  ghost predicate Reachable(g: Grid, idx: Indexing, t: Coord)
  {
    exists actions, cells :: IsPath(g, idx, g.start, actions, cells) && End(g.start, cells) == t
  }

  /** A solution walks from start to goal by neighbour moves, and start
      itself is not among its cells. */
  ghost predicate ValidSolution(g: Grid, idx: Indexing, sol: Solution)
  {
    && IsPath(g, idx, g.start, sol.actions, sol.cells)
    && |sol.cells| > 0
    && sol.cells[|sol.cells| - 1] == g.goal
    && g.start !in sol.cells
  }

  /** The states the search can ever hold: every coordinate of the box
      [-height, height) x [-width, width). */
  ghost function Box(g: Grid): set<Coord>
  {
    set r: int, c: int | -(g.height as int) <= r < g.height && -(g.width as int) <= c < g.width :: Coord(r, c)
  }

  /** What a finished search promises. It fails only with NoSolution, and
      exactly when the goal is unreachable; a solution is a valid path; the
      explored states are reachable and, on failure, are all the reachable
      states; no state was taken off the frontier twice, so numExplored is the
      size of the explored set (plus the goal on success). */
  ghost predicate CorrectResult(g: Grid, idx: Indexing, r: SearchResult)
  {
    && (r.outcome.Failure? ==> r.outcome.error == NoSolution)
    && (r.outcome.Success? <==> Reachable(g, idx, g.goal))
    && (r.outcome.Success? ==> ValidSolution(g, idx, r.outcome.value) && r.numExplored == |r.explored| + 1)
    && (r.outcome.Failure? ==> r.numExplored == |r.explored|)
    && (r.outcome.Failure? ==> forall t :: Reachable(g, idx, t) ==> t in r.explored)
    && (forall t :: t in r.explored ==> Reachable(g, idx, t) && InBox(g, t))
    && g.goal !in r.explored
  }

  lemma {:induction false} PathPrepend(g: Grid, idx: Indexing, from: Coord, a: Action, t: Coord, actions: seq<Action>, cells: seq<Coord>)
    requires Move(a, t) in ValidMoves(g, from, idx)
    requires IsPath(g, idx, t, actions, cells)
    ensures IsPath(g, idx, from, [a] + actions, [t] + cells)
    ensures End(from, [t] + cells) == End(t, cells)
  {
    var acts', cells' := [a] + actions, [t] + cells;
    forall i | 0 <= i < |cells'|
      ensures StepOk(g, idx, from, acts', cells', i)
    {
      if i > 0 {
        assert StepOk(g, idx, t, actions, cells, i - 1);
        StepShift(g, idx, from, a, t, actions, cells, i);
      }
    }
  }

  /** Step i - 1 of a walk from t is step i of the walk from `from` that
      first moves to t. */
  lemma StepShift(g: Grid, idx: Indexing, from: Coord, a: Action, t: Coord, actions: seq<Action>, cells: seq<Coord>, i: nat)
    requires 0 < i <= |cells| && |actions| == |cells|
    requires StepOk(g, idx, t, actions, cells, i - 1)
    ensures StepOk(g, idx, from, [a] + actions, [t] + cells, i)
  {
    var acts', cells' := [a] + actions, [t] + cells;
    var prev := if i - 1 == 0 then t else cells[i - 2];
    assert Move(acts'[i], cells'[i]) == Move(actions[i - 1], cells[i - 1]);
    assert cells'[i - 1] == prev;
  }

  lemma {:induction false} PathAppend(g: Grid, idx: Indexing, from: Coord, actions: seq<Action>, cells: seq<Coord>, m: Move)
    requires IsPath(g, idx, from, actions, cells)
    requires m in ValidMoves(g, End(from, cells), idx)
    ensures IsPath(g, idx, from, actions + [m.action], cells + [m.target])
    ensures End(from, cells + [m.target]) == m.target
  {
    var acts', cells' := actions + [m.action], cells + [m.target];
    forall i | 0 <= i < |cells'|
      ensures StepOk(g, idx, from, acts', cells', i)
    {
      if i < |cells| {
        assert StepOk(g, idx, from, actions, cells, i);
        assert acts'[i] == actions[i] && cells'[i] == cells[i];
        assert i > 0 ==> cells'[i - 1] == cells[i - 1];
      } else {
        assert acts'[i] == m.action && cells'[i] == m.target;
        assert i > 0 ==> cells'[i - 1] == cells[i - 1];
      }
    }
  }

  /** `S` holds every target of every move out of `S`, except those in `T`. */
  ghost predicate ClosedUnder(g: Grid, idx: Indexing, S: set<Coord>, T: set<Coord>)
  {
    forall s, m :: s in S && m in ValidMoves(g, s, idx) ==> m.target in S || m.target in T
  }

  lemma {:induction false} ClosedHoldsPrefix(g: Grid, idx: Indexing, S: set<Coord>, actions: seq<Action>, cells: seq<Coord>, n: nat)
    requires g.start in S && ClosedUnder(g, idx, S, {})
    requires IsPath(g, idx, g.start, actions, cells)
    requires n <= |cells|
    ensures forall i :: 0 <= i < n ==> cells[i] in S
  {
    if n > 0 {
      ClosedHoldsPrefix(g, idx, S, actions, cells, n - 1);
      assert StepOk(g, idx, g.start, actions, cells, n - 1);
    }
  }

  /** A set that holds start and is closed under the neighbour moves holds
      every reachable state. */
  lemma ClosedHoldsReachable(g: Grid, idx: Indexing, S: set<Coord>)
    requires g.start in S && ClosedUnder(g, idx, S, {})
    ensures forall t :: Reachable(g, idx, t) ==> t in S
  {
    forall t | Reachable(g, idx, t)
      ensures t in S
    {
      var actions, cells :| IsPath(g, idx, g.start, actions, cells) && End(g.start, cells) == t;
      ClosedHoldsPrefix(g, idx, S, actions, cells, |cells|);
    }
  }

  // ---------------------------------------------------------------------------
  // Parent links
  // ---------------------------------------------------------------------------

  /** A node's link to its parent in `arena`: the root sits at start with no
      action; any other node is the target of a neighbour move out of its
      parent's state, and is not at start. */
  ghost predicate Linked(g: Grid, idx: Indexing, arena: seq<Node>, n: Node)
  {
    match n.parent
    case None => n.state == g.start && n.action == None
    case Some(p) =>
      && p < |arena|
      && n.action.Some?
      && n.state != g.start
      && Move(n.action.value, n.state) in ValidMoves(g, arena[p].state, idx)
  }

  /** Every arena node is linked to a node before it. */
  ghost predicate ArenaLinked(g: Grid, idx: Indexing, arena: seq<Node>)
  {
    forall k :: 0 <= k < |arena| ==> Linked(g, idx, arena[..k], arena[k])
  }

  lemma LinkedGrow(g: Grid, idx: Indexing, small: seq<Node>, arena: seq<Node>, n: Node)
    requires |small| <= |arena| && small == arena[..|small|]
    requires Linked(g, idx, small, n)
    ensures Linked(g, idx, arena, n)
  {
    if n.parent.Some? {
      assert small[n.parent.value] == arena[n.parent.value];
    }
  }

  lemma ArenaGrow(g: Grid, idx: Indexing, arena: seq<Node>, n: Node)
    requires ArenaLinked(g, idx, arena) && Linked(g, idx, arena, n)
    ensures ArenaLinked(g, idx, arena + [n])
  {
    var arena' := arena + [n];
    forall k | 0 <= k < |arena'|
      ensures Linked(g, idx, arena'[..k], arena'[k])
    {
      if k < |arena| {
        assert arena'[..k] == arena[..k];
      } else {
        assert arena'[..k] == arena;
      }
    }
  }

  /** The state of every arena node is reachable: follow its parent links. */
  lemma {:induction false} ChainReachable(g: Grid, idx: Indexing, arena: seq<Node>, k: nat)
    requires ArenaLinked(g, idx, arena) && k < |arena|
    ensures Reachable(g, idx, arena[k].state)
    decreases k
  {
    var n := arena[k];
    assert Linked(g, idx, arena[..k], n);
    match n.parent
    case None =>
      assert IsPath(g, idx, g.start, [], []) && End(g.start, []) == n.state;
    case Some(p) =>
      assert arena[..k][p] == arena[p];
      ChainReachable(g, idx, arena, p);
      var actions, cells :| IsPath(g, idx, g.start, actions, cells) && End(g.start, cells) == arena[p].state;
      var m := Move(n.action.value, n.state);
      PathAppend(g, idx, g.start, actions, cells, m);
  }

  lemma ArenaReachable(g: Grid, idx: Indexing, arena: seq<Node>)
    requires ArenaLinked(g, idx, arena)
    ensures forall s :: s in StatesOf(arena) ==> Reachable(g, idx, s)
  {
    forall s | s in StatesOf(arena)
      ensures Reachable(g, idx, s)
    {
      var k :| 0 <= k < |arena| && arena[k].state == s;
      ChainReachable(g, idx, arena, k);
    }
  }

  // ---------------------------------------------------------------------------
  // The search
  // ---------------------------------------------------------------------------

  lemma BoxMembers(g: Grid)
    ensures forall t :: t in Box(g) <==> InBox(g, t)
  {
    forall t | InBox(g, t)
      ensures t in Box(g)
    {
      assert t == Coord(t.row, t.col);
    }
  }

  lemma RemainderShrinks(B: set<Coord>, s0: set<Coord>, s1: set<Coord>)
    requires s0 <= s1 <= B && s0 != s1
    ensures B - s1 < B - s0
  {
    var x :| x in s1 && x !in s0;
    assert x in B - s0 && x !in B - s1;
  }

  /** The frontier part of the loop invariant of Search: the frontier nodes
      have distinct states, each linked into the arena, unexplored, and in
      the box. */
  ghost predicate FrontierInv(g: Grid, idx: Indexing, arena: seq<Node>, explored: set<Coord>, nodes: seq<Node>)
  {
    && DistinctStates(nodes)
    && forall n :: n in nodes ==> Linked(g, idx, arena, n) && n.state !in explored && InBox(g, n.state)
  }

  ghost function Root(g: Grid): Node
  {
    Node(g.start, None, None)
  }

  /** The loop invariant of Search. Explored states are exactly the arena's
      states, each linked to an earlier arena node; the frontier is as
      FrontierInv says; the goal has not been explored; before the first
      expansion the frontier holds only the root, afterwards start is
      explored; and every move out of an explored state leads to an explored
      state or a frontier state. */
  ghost predicate SearchInv(g: Grid, idx: Indexing, arena: seq<Node>, explored: set<Coord>, nodes: seq<Node>, numExplored: nat)
  {
    && numExplored == |explored|
    && explored == StatesOf(arena)
    && (forall t :: t in explored ==> InBox(g, t))
    && ArenaLinked(g, idx, arena)
    && FrontierInv(g, idx, arena, explored, nodes)
    && g.goal !in explored
    && ((explored == {} && nodes == [Root(g)]) || g.start in explored)
    && ClosedUnder(g, idx, explored, StatesOf(nodes))
  }

  lemma InitInv(g: Grid, idx: Indexing)
    requires g.Valid()
    ensures SearchInv(g, idx, [], {}, [Root(g)], 0)
  {
    assert StatesOf([Root(g)]) == {g.start};
  }

  /** Taking `node` off the frontier and exploring it: the count, the start
      state and the seen states come out right. */
  lemma PopCounts(g: Grid, explored: set<Coord>, before: seq<Node>, after: seq<Node>, node: Node, numExplored: nat)
    requires numExplored == |explored| && node.state !in explored && node in before
    requires (explored == {} && before == [Root(g)]) || g.start in explored
    requires StatesOf(after) == StatesOf(before) - {node.state}
    ensures g.start in explored + {node.state}
    ensures numExplored + 1 == |explored + {node.state}|
    ensures explored + {node.state} + StatesOf(after) == explored + StatesOf(before)
  {
    assert node.state in StatesOf(before);
  }

  /** The frontier nodes left after a pop stay linked, unexplored and in the
      box once the popped node has joined the arena and the explored set. */
  lemma PopFrontier(g: Grid, idx: Indexing, arena: seq<Node>, explored: set<Coord>, before: seq<Node>,
                    after: seq<Node>, node: Node)
    requires FrontierInv(g, idx, arena, explored, before)
    requires node in before
    requires forall n :: n in after ==> n in before
    requires DistinctStates(after) && StatesOf(after) == StatesOf(before) - {node.state}
    ensures FrontierInv(g, idx, arena + [node], explored + {node.state}, after)
    ensures Linked(g, idx, arena, node) && node.state !in explored && InBox(g, node.state)
  {
    forall n | n in after
      ensures Linked(g, idx, arena + [node], n) && n.state !in explored + {node.state} && InBox(g, n.state)
    {
      LinkedGrow(g, idx, arena, arena + [node], n);
      assert n.state in StatesOf(after);
    }
  }

  /** The closure of the explored set survives the pop: the popped state
      leaves the frontier but joins the explored set. */
  lemma PopClosed(g: Grid, idx: Indexing, explored: set<Coord>, before: seq<Node>, after: seq<Node>, node: Node)
    requires ClosedUnder(g, idx, explored, StatesOf(before))
    requires StatesOf(after) == StatesOf(before) - {node.state}
    ensures forall s, m :: s in explored && m in ValidMoves(g, s, idx) ==>
              m.target in explored + {node.state} || m.target in StatesOf(after)
  {
  }

  /** After the children are pushed, the loop invariant holds again. */
  lemma ChildrenInv(g: Grid, idx: Indexing, arena: seq<Node>, explored: set<Coord>, node: Node,
                    mid: seq<Node>, nodes: seq<Node>, numExplored: nat)
    requires |arena| > 0 && node == arena[|arena| - 1]
    requires FrontierInv(g, idx, arena, explored, nodes)
    requires explored == StatesOf(arena) && forall t :: t in explored ==> InBox(g, t)
    requires ArenaLinked(g, idx, arena)
    requires g.goal !in explored && g.start in explored
    requires numExplored == |explored|
    requires forall s, m :: s in explored - {node.state} && m in ValidMoves(g, s, idx) ==>
               m.target in explored || m.target in StatesOf(mid)
    requires StatesOf(mid) <= StatesOf(nodes)
    requires forall m :: m in ValidMoves(g, node.state, idx) ==> m.target in explored || m.target in StatesOf(nodes)
    ensures SearchInv(g, idx, arena, explored, nodes, numExplored)
  {
    forall s, m | s in explored && m in ValidMoves(g, s, idx)
      ensures m.target in explored || m.target in StatesOf(nodes)
    {
      if s != node.state {
        assert s in explored - {node.state};
      }
    }
  }

  /** The frontier ran dry: the explored set is closed, so it is the set of
      reachable states, and the goal is not among them. */
  lemma NoSolutionCorrect(g: Grid, idx: Indexing, arena: seq<Node>, explored: set<Coord>, numExplored: nat)
    requires g.Valid() && SearchInv(g, idx, arena, explored, [], numExplored)
    ensures CorrectResult(g, idx, SearchResult(Failure(NoSolution), explored, numExplored))
  {
    assert StatesOf([]) == {};
    ClosedHoldsReachable(g, idx, explored);
    ArenaReachable(g, idx, arena);
  }

  /** The goal came off the frontier with a valid solution in hand. */
  lemma SolvedCorrect(g: Grid, idx: Indexing, arena: seq<Node>, explored: set<Coord>, nodes: seq<Node>,
                      numExplored: nat, sol: Solution)
    requires g.Valid() && SearchInv(g, idx, arena, explored, nodes, numExplored)
    requires ValidSolution(g, idx, sol)
    ensures CorrectResult(g, idx, SearchResult(Success(sol), explored, numExplored + 1))
  {
    ArenaReachable(g, idx, arena);
    assert End(g.start, sol.cells) == g.goal;
  }

  /** The loop measure goes down: the set of unseen box states shrinks, or it
      stays the same and the frontier gets shorter. */
  ghost predicate Decreased(g: Grid, s0: set<Coord>, n0: nat, s1: set<Coord>, n1: nat)
  {
    Box(g) - s1 < Box(g) - s0 || (Box(g) - s1 == Box(g) - s0 && n1 < n0)
  }

  lemma Progress(g: Grid, s0: set<Coord>, s1: set<Coord>, n0: nat, n1: nat)
    requires s0 <= s1 && forall t :: t in s1 ==> InBox(g, t)
    requires s1 == s0 ==> n1 < n0
    ensures Decreased(g, s0, n0, s1, n1)
  {
    BoxMembers(g);
    if s1 != s0 {
      RemainderShrinks(Box(g), s0, s1);
    }
  }

  /** Exploring a node keeps the measure going down: the explored node's
      state moved from the frontier to the explored set, and the pushed
      children, if any, were unseen. */
  lemma ExploreProgress(g: Grid, idx: Indexing, arena: seq<Node>, explored: set<Coord>, mid: seq<Node>, nodes: seq<Node>,
                        s0: set<Coord>, n0: nat)
    requires FrontierInv(g, idx, arena, explored, nodes)
    requires forall t :: t in explored ==> InBox(g, t)
    requires explored + StatesOf(mid) == s0
    requires StatesOf(mid) <= StatesOf(nodes)
    requires StatesOf(nodes) == StatesOf(mid) ==> nodes == mid
    requires |mid| < n0
    ensures Decreased(g, s0, n0, explored + StatesOf(nodes), |nodes|)
  {
    var s1 := explored + StatesOf(nodes);
    forall t | t in StatesOf(nodes)
      ensures InBox(g, t) && t !in explored
    {
      var i :| 0 <= i < |nodes| && nodes[i].state == t;
      assert nodes[i] in nodes;
    }
    if s1 == s0 {
      assert StatesOf(nodes) == StatesOf(mid);
    }
    Progress(g, s0, s1, n0, |nodes|);
  }

  /** Pushing the child reached by a neighbour move of the last explored
      node keeps the frontier invariant and adds exactly the child's state. */
  lemma PushChild(g: Grid, idx: Indexing, arena: seq<Node>, explored: set<Coord>, nodes: seq<Node>, m: Move, child: Node)
    requires g.Valid() && g.start in explored && |arena| > 0
    requires m in ValidMoves(g, arena[|arena| - 1].state, idx)
    requires FrontierInv(g, idx, arena, explored, nodes)
    requires m.target !in StatesOf(nodes) && m.target !in explored
    requires child == Node(m.target, Some(|arena| - 1), Some(m.action))
    ensures FrontierInv(g, idx, arena, explored, nodes + [child])
    ensures StatesOf(nodes + [child]) == StatesOf(nodes) + {m.target}
  {
    KeepMembers(g, idx, Candidates(arena[|arena| - 1].state), m);
    AdmittedTargets(g, m.target, idx);
    assert Linked(g, idx, arena, child);
    StatesOfAppend(nodes, child);
    DistinctAppend(nodes, child);
    forall n | n in nodes + [child]
      ensures Linked(g, idx, arena, n) && n.state !in explored && InBox(g, n.state)
    {
      if n != child {
        assert n in nodes;
      }
    }
  }

  /** Appending a node whose state is new keeps the states distinct. */
  lemma DistinctAppend(nodes: seq<Node>, child: Node)
    requires DistinctStates(nodes) && child.state !in StatesOf(nodes)
    ensures DistinctStates(nodes + [child])
  {
    var nodes' := nodes + [child];
    forall i, j | 0 <= i < |nodes'| && 0 <= j < |nodes'| && i != j
      ensures nodes'[i].state != nodes'[j].state
    {
      if i < |nodes| && j < |nodes| {
        assert nodes'[i] == nodes[i] && nodes'[j] == nodes[j];
      } else if i < |nodes| {
        assert nodes[i].state in StatesOf(nodes);
      } else {
        assert nodes[j].state in StatesOf(nodes);
      }
    }
  }

  // ---------------------------------------------------------------------------
  // The children pushed by one expansion
  // ---------------------------------------------------------------------------

  /** The frontier after the inner loop of solves() has gone through `moves`
      from `nodes`: a move whose target is neither in the frontier as it is at
      that point nor explored adds the child node at the end, with parent
      `parent` and the move's action. */
  function Grow(parent: nat, explored: set<Coord>, nodes: seq<Node>, moves: seq<Move>): seq<Node>
  {
    if moves == [] then nodes
    else
      var before := Grow(parent, explored, nodes, moves[..|moves| - 1]);
      var m := moves[|moves| - 1];
      if m.target !in StatesOf(before) && m.target !in explored
      then before + [Node(m.target, Some(parent), Some(m.action))]
      else before
  }

  /** Going through one more move: `next` is the frontier after moves[k]
      when `cur` is the frontier after the moves before it and `push` says
      whether moves[k] adds a child. */
  lemma GrowStep(parent: nat, explored: set<Coord>, nodes: seq<Node>, moves: seq<Move>, k: nat,
                 cur: seq<Node>, push: bool, next: seq<Node>)
    requires k < |moves| && cur == Grow(parent, explored, nodes, moves[..k])
    requires push <==> moves[k].target !in StatesOf(cur) && moves[k].target !in explored
    requires next == if push then cur + [Node(moves[k].target, Some(parent), Some(moves[k].action))] else cur
    ensures next == Grow(parent, explored, nodes, moves[..k + 1])
  {
    assert moves[..k + 1][..k] == moves[..k];
  }

  /** The old frontier stays a prefix, and every appended node is the child,
      under `parent`, of a move whose target was neither explored nor in the
      old frontier. */
  lemma {:induction false} GrowPrefix(parent: nat, explored: set<Coord>, nodes: seq<Node>, moves: seq<Move>)
    ensures |nodes| <= |Grow(parent, explored, nodes, moves)|
    ensures Grow(parent, explored, nodes, moves)[..|nodes|] == nodes
    ensures forall i :: |nodes| <= i < |Grow(parent, explored, nodes, moves)| ==>
              var n := Grow(parent, explored, nodes, moves)[i];
              n.parent == Some(parent) && n.action.Some? && Move(n.action.value, n.state) in moves &&
              n.state !in explored && n.state !in StatesOf(nodes)
  {
    if moves != [] {
      var init, last := moves[..|moves| - 1], moves[|moves| - 1];
      GrowPrefix(parent, explored, nodes, init);
      var before := Grow(parent, explored, nodes, init);
      assert moves == init + [last];
      forall s | s in StatesOf(nodes)
        ensures s in StatesOf(before)
      {
        var i :| 0 <= i < |nodes| && nodes[i].state == s;
        assert before[i] == nodes[i];
      }
    }
  }

  /** Going through neighbour moves of the last arena node keeps FrontierInv,
      leaves every move's target explored or in the frontier, and only adds
      states; the states stay the same only if no node was pushed. */
  lemma {:induction false} GrowKeepsInv(g: Grid, idx: Indexing, arena: seq<Node>, explored: set<Coord>, parent: nat,
                                        nodes: seq<Node>, moves: seq<Move>)
    requires g.Valid() && g.start in explored && |arena| > 0 && parent == |arena| - 1
    requires forall m :: m in moves ==> m in ValidMoves(g, arena[parent].state, idx)
    requires FrontierInv(g, idx, arena, explored, nodes)
    ensures FrontierInv(g, idx, arena, explored, Grow(parent, explored, nodes, moves))
    ensures forall m :: m in moves ==> m.target in explored || m.target in StatesOf(Grow(parent, explored, nodes, moves))
    ensures StatesOf(nodes) <= StatesOf(Grow(parent, explored, nodes, moves))
    ensures StatesOf(Grow(parent, explored, nodes, moves)) == StatesOf(nodes) ==> Grow(parent, explored, nodes, moves) == nodes
  {
    if moves != [] {
      var init, last := moves[..|moves| - 1], moves[|moves| - 1];
      assert moves == init + [last];
      GrowKeepsInv(g, idx, arena, explored, parent, nodes, init);
      var before := Grow(parent, explored, nodes, init);
      if last.target !in StatesOf(before) && last.target !in explored {
        var child := Node(last.target, Some(parent), Some(last.action));
        PushChild(g, idx, arena, explored, before, last, child);
        assert last.target !in StatesOf(nodes);
      }
    }
  }

  /** With moves in try order, the appended children come in try order too. */
  lemma {:induction false} GrowOrder(parent: nat, explored: set<Coord>, nodes: seq<Node>, moves: seq<Move>)
    requires InTryOrder(moves)
    ensures forall i, j :: |nodes| <= i < j < |Grow(parent, explored, nodes, moves)| ==>
              var ni, nj := Grow(parent, explored, nodes, moves)[i], Grow(parent, explored, nodes, moves)[j];
              ni.action.Some? && nj.action.Some? && Rank(ni.action.value) < Rank(nj.action.value)
  {
    if moves != [] {
      var init, last := moves[..|moves| - 1], moves[|moves| - 1];
      assert moves == init + [last];
      assert InTryOrder(init);
      GrowOrder(parent, explored, nodes, init);
      GrowPrefix(parent, explored, nodes, init);
      forall m | m in init
        ensures Rank(m.action) < Rank(last.action)
      {
        var k :| 0 <= k < |init| && init[k] == m;
        assert moves[k] == m;
      }
    }
  }

  /** With pairwise distinct targets, every move whose target was neither
      explored nor in the old frontier has its child appended. */
  lemma {:induction false} GrowCovers(parent: nat, explored: set<Coord>, nodes: seq<Node>, moves: seq<Move>)
    requires forall i, j :: 0 <= i < j < |moves| ==> moves[i].target != moves[j].target
    ensures forall m :: m in moves && m.target !in explored && m.target !in StatesOf(nodes) ==>
              Node(m.target, Some(parent), Some(m.action)) in Grow(parent, explored, nodes, moves)
  {
    if moves != [] {
      var init, last := moves[..|moves| - 1], moves[|moves| - 1];
      assert moves == init + [last];
      GrowCovers(parent, explored, nodes, init);
      GrowPrefix(parent, explored, nodes, init);
      var before := Grow(parent, explored, nodes, init);
      var after := Grow(parent, explored, nodes, moves);
      assert after[..|before|] == before;
      forall m | m in init
        ensures m.target != last.target
      {
        var k :| 0 <= k < |init| && init[k] == m;
        assert moves[k] == m;
      }
      if last.target !in explored && last.target !in StatesOf(nodes) {
        forall i | 0 <= i < |before|
          ensures before[i].state != last.target
        {
          if i < |nodes| {
            assert before[i] == nodes[i];
          }
        }
      }
      forall m | m in moves && m.target !in explored && m.target !in StatesOf(nodes)
        ensures Node(m.target, Some(parent), Some(m.action)) in after
      {
        if m in init {
          var i :| 0 <= i < |before| && before[i] == Node(m.target, Some(parent), Some(m.action));
          assert after[i] == before[i];
        }
      }
    }
  }

  /** The moves neighbors() returns have pairwise distinct targets. */
  lemma ValidMovesDistinct(g: Grid, s: Coord, idx: Indexing)
    ensures forall i, j :: 0 <= i < j < |ValidMoves(g, s, idx)| ==> ValidMoves(g, s, idx)[i].target != ValidMoves(g, s, idx)[j].target
  {
    NeighborsSpec(g, s, idx);
    var ms := ValidMoves(g, s, idx);
    forall i, j | 0 <= i < j < |ms|
      ensures ms[i].target != ms[j].target
    {
      assert ms[i] in ms && ms[j] in ms;
      assert Rank(ms[i].action) < Rank(ms[j].action);
    }
  }

  /** One expansion of `node` pushes, in try order and under the new arena
      entry, exactly the children of the moves neighbors() returns whose
      targets are neither explored nor already in the frontier. */
  lemma ExpansionChildren(g: Grid, idx: Indexing, parent: nat, explored: set<Coord>, nodes: seq<Node>, s: Coord)
    ensures var after := Grow(parent, explored, nodes, ValidMoves(g, s, idx));
      && |nodes| <= |after| && after[..|nodes|] == nodes
      && (forall i :: |nodes| <= i < |after| ==>
            after[i].parent == Some(parent) && after[i].action.Some? &&
            Move(after[i].action.value, after[i].state) in ValidMoves(g, s, idx) &&
            after[i].state !in explored && after[i].state !in StatesOf(nodes))
      && (forall m :: m in ValidMoves(g, s, idx) && m.target !in explored && m.target !in StatesOf(nodes) ==>
            Node(m.target, Some(parent), Some(m.action)) in after)
      && (forall i, j :: |nodes| <= i < j < |after| ==>
            after[i].action.Some? && after[j].action.Some? && Rank(after[i].action.value) < Rank(after[j].action.value))
  {
    var ms := ValidMoves(g, s, idx);
    NeighborsSpec(g, s, idx);
    ValidMovesDistinct(g, s, idx);
    GrowPrefix(parent, explored, nodes, ms);
    GrowCovers(parent, explored, nodes, ms);
    GrowOrder(parent, explored, nodes, ms);
  }

  // ---------------------------------------------------------------------------
  // Bounds-checked reachability stays inside the grid
  // ---------------------------------------------------------------------------

  /** With bounds checking every reachable state is an open cell of the
      grid. */
  lemma ReachableInGrid(g: Grid, t: Coord)
    requires g.Valid() && Reachable(g, BoundsChecked, t)
    ensures g.InGrid(t) && !g.walls[t.row][t.col]
  {
    var actions, cells :| IsPath(g, BoundsChecked, g.start, actions, cells) && End(g.start, cells) == t;
    if cells != [] {
      var k := |cells| - 1;
      assert StepOk(g, BoundsChecked, g.start, actions, cells, k);
      var prev := if k == 0 then g.start else cells[k - 1];
      KeepMembers(g, BoundsChecked, Candidates(prev), Move(actions[k], cells[k]));
      AdmittedTargets(g, t, BoundsChecked);
    }
  }

  /** With bounds checking every cell of a path is an open cell of the grid. */
  lemma PathInGrid(g: Grid, sol: Solution)
    requires g.Valid() && ValidSolution(g, BoundsChecked, sol)
    ensures forall c :: c in sol.cells ==> g.InGrid(c) && !g.walls[c.row][c.col]
  {
    forall c | c in sol.cells
      ensures g.InGrid(c) && !g.walls[c.row][c.col]
    {
      var k :| 0 <= k < |sol.cells| && sol.cells[k] == c;
      assert StepOk(g, BoundsChecked, g.start, sol.actions, sol.cells, k);
      var prev := if k == 0 then g.start else sol.cells[k - 1];
      KeepMembers(g, BoundsChecked, Candidates(prev), Move(sol.actions[k], c));
      AdmittedTargets(g, c, BoundsChecked);
    }
  }
}
