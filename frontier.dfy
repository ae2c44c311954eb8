/** Search nodes and the frontier that holds them (Node, StackFrontier and
    QueueFrontier in maze.py). */
module Frontiers {
  import opened Basics

  /** A search node. Instead of a reference to its parent node, a node keeps
      the index of its parent in the search's arena of expanded nodes; the
      root has neither parent nor action. */
  datatype Node = Node(state: Coord, parent: Option<nat>, action: Option<Action>)

  /** Which end remove() takes from: StackFrontier (the last node added) or
      QueueFrontier (the first). */
  datatype Policy = Stack | Queue

  /** The states of the nodes in `nodes`. */
  function StatesOf(nodes: seq<Node>): (states: set<Coord>)
    ensures forall n :: n in nodes ==> n.state in states
    ensures forall s :: s in states ==> exists i :: 0 <= i < |nodes| && nodes[i].state == s
  {
    set i | 0 <= i < |nodes| :: nodes[i].state
  }

  /** No two nodes of `nodes` share a state. */
  ghost predicate DistinctStates(nodes: seq<Node>)
  {
    forall i, j :: 0 <= i < |nodes| && 0 <= j < |nodes| && i != j ==> nodes[i].state != nodes[j].state
  }

  /** any(node.state == state for node in nodes) */
  function HasState(nodes: seq<Node>, state: Coord): (b: bool)
    ensures b <==> exists i :: 0 <= i < |nodes| && nodes[i].state == state
  {
    if nodes == [] then false else nodes[0].state == state || HasState(nodes[1..], state)
  }

  class Frontier {
    const policy: Policy
    var nodes: seq<Node>

    constructor (policy: Policy)
      ensures this.policy == policy && nodes == []
    {
      this.policy := policy;
      nodes := [];
    }

    method Add(node: Node)
      modifies this
      ensures nodes == old(nodes) + [node]
    {
      nodes := nodes + [node];
    }

    /** contains_stage(state) */
    function ContainsState(state: Coord): (b: bool)
      reads this
      ensures b <==> state in StatesOf(nodes)
    {
      assert forall i :: 0 <= i < |nodes| ==> nodes[i].state in StatesOf(nodes);
      HasState(nodes, state)
    }

    /** empty() */
    function IsEmpty(): (b: bool)
      reads this
      ensures b <==> |nodes| == 0
      ensures b <==> forall s :: !ContainsState(s)
    {
      if nodes != [] then assert ContainsState(nodes[0].state); false else true
    }

    /** remove(): the last node for a stack, the first for a queue; an empty
        frontier is an error and is left as it is. */
    method Remove() returns (r: Result<Node>)
      modifies this
      ensures old(nodes) == [] ==> r == Failure(EmptyFrontier) && nodes == old(nodes)
      ensures old(nodes) != [] && policy == Stack ==>
                r == Success(old(nodes)[|old(nodes)| - 1]) && nodes == old(nodes)[..|old(nodes)| - 1]
      ensures old(nodes) != [] && policy == Queue ==>
                r == Success(old(nodes)[0]) && nodes == old(nodes)[1..]
    {
      if IsEmpty() {
        return Failure(EmptyFrontier);
      }
      match policy
      case Stack =>
        r := Success(nodes[|nodes| - 1]);
        nodes := nodes[..|nodes| - 1];
      case Queue =>
        r := Success(nodes[0]);
        nodes := nodes[1..];
    }
  }

  /** The node remove() takes from a non-empty frontier under `policy`. */
  function Taken(policy: Policy, nodes: seq<Node>): Node
    requires nodes != []
  {
    if policy == Stack then nodes[|nodes| - 1] else nodes[0]
  }

  /** The nodes remove() leaves in a non-empty frontier under `policy`. */
  function Remaining(policy: Policy, nodes: seq<Node>): seq<Node>
    requires nodes != []
  {
    if policy == Stack then nodes[..|nodes| - 1] else nodes[1..]
  }

  /** What one remove() does to the nodes, whichever the policy: exactly one
      node leaves, the others stay, and with distinct states the popped state
      is the only one that leaves. */
  lemma RemoveTakesOne(policy: Policy, before: seq<Node>, after: seq<Node>, popped: Node)
    requires before != []
    requires policy == Stack ==> popped == before[|before| - 1] && after == before[..|before| - 1]
    requires policy == Queue ==> popped == before[0] && after == before[1..]
    ensures |after| == |before| - 1
    ensures popped in before
    ensures forall n :: n in after ==> n in before
    ensures forall n :: n in before ==> n in after || n == popped
    ensures DistinctStates(before) ==> DistinctStates(after) && StatesOf(after) == StatesOf(before) - {popped.state}
  {
    var k := if policy == Stack then |before| - 1 else 0;
    assert before[k] == popped;
    assert forall i :: 0 <= i < |after| ==> after[i] == before[if policy == Stack then i else i + 1];
    forall n | n in before
      ensures n in after || n == popped
    {
      var i :| 0 <= i < |before| && before[i] == n;
      if i != k {
        assert after[if policy == Stack then i else i - 1] == n;
      }
    }
    if DistinctStates(before) {
      forall s | s in StatesOf(before) - {popped.state}
        ensures s in StatesOf(after)
      {
        var i :| 0 <= i < |before| && before[i].state == s;
        assert i != k;
        assert after[if policy == Stack then i else i - 1].state == s;
      }
    }
  }

  lemma StatesOfAppend(nodes: seq<Node>, n: Node)
    ensures StatesOf(nodes + [n]) == StatesOf(nodes) + {n.state}
  {
    var all := nodes + [n];
    assert all[|nodes|].state == n.state;
    forall s | s in StatesOf(nodes)
      ensures s in StatesOf(all)
    {
      var i :| 0 <= i < |nodes| && nodes[i].state == s;
      assert all[i].state == s;
    }
  }
}
