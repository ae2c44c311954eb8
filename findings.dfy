/** Negative indices in the neighbour lookup: what the search does as
    written, and what the bounds-checked lookup guarantees instead. */
module WrapAround {
  import opened Basics
  import opened MazeText
  import opened Neighborhood
  import opened SearchTheory

  /** The maze "A#B\n###\n   ": start and goal in the top row, walled off
      from each other and from the open bottom row. */
  function Walled(): Grid
  {
    Grid(3, 3, [[false, true, false], [true, true, true], [false, false, false]], Coord(0, 0), Coord(0, 2))
  }

  lemma WalledValid()
    ensures Walled().Valid()
  {
  }

  /** A line that ends at k, by the position of its first break. */
  lemma LineEndAt(s: string, k: nat)
    requires k <= |s| && (forall i :: 0 <= i < k ==> !IsLineBreak(s[i])) && (k < |s| ==> IsLineBreak(s[k]))
    ensures LineEnd(s) == k
  {
  }

  /** The text of the walled maze splits into its three rows. */
  lemma {:induction false} WalledSplit(text: string)
    requires text == "A#B\n###\n   "
    ensures SplitLines(text) == ["A#B", "###", "   "]
  {
    var rest, last := text[4..], text[8..];
    assert last == "   " && rest == "###\n   ";
    LineEndAt(last, 3);
    assert SplitLines(last) == [last];
    LineEndAt(rest, 3);
    assert NextLineStart(rest) == 4 && rest[4..] == last && rest[..3] == "###";
    SplitLinesUnfold(rest);
    LineEndAt(text, 3);
    assert NextLineStart(text) == 4 && text[4..] == rest && text[..3] == "A#B";
    SplitLinesUnfold(text);
  }

  /** "A#B\n###\n   " splits into its three rows. */
  lemma WalledLines()
    ensures SplitLines("A#B\n###\n   ") == ["A#B", "###", "   "]
  {
    WalledSplit("A#B\n###\n   ");
  }

  /** "A#B\n###\n   " holds one 'A' and one 'B'. */
  lemma WalledCounts()
    ensures Count("A#B\n###\n   ", 'A') == 1 && Count("A#B\n###\n   ", 'B') == 1
  {
    var text, rest := "A#B\n###\n   ", "\n###\n   ";
    forall j | 0 <= j < |rest|
      ensures rest[j] != 'A' && rest[j] != 'B'
    {
    }
    assert 'A' !in rest && 'B' !in rest;
    assert text == "A#B" + rest;
    assert multiset(text) == multiset("A#B") + multiset(rest);
  }

  /** Walled() is the grid parsed from the rows of "A#B\n###\n   ". */
  lemma WalledParsed()
    ensures ParsedFrom(Walled(), ["A#B", "###", "   "])
  {
    var lines := ["A#B", "###", "   "];
    assert MaxLength(lines) == 3;
    forall p
      ensures IsMarkerAt(lines, p, 'A') <==> p == Coord(0, 0)
      ensures IsMarkerAt(lines, p, 'B') <==> p == Coord(0, 2)
    {
    }
  }

  /** Up from row 0 is row -1, which Python reads as the bottom row. */
  lemma UpFromTopRowWraps()
    ensures Move(Up, Coord(-1, 0)) in ValidMoves(Walled(), Coord(0, 0), PythonIndex)
    ensures !Walled().InGrid(Coord(-1, 0))
  {
    var g := Walled();
    assert Lookup(g.walls, Coord(-1, 0)) == Some(false);
    KeepMembers(g, PythonIndex, Candidates(Coord(0, 0)), Move(Up, Coord(-1, 0)));
  }

  /** As written, the goal of the walled maze is reachable: up into row -1,
      right twice along it, and down onto the goal. So Search with
      PythonIndex reports a solution for a maze that has none. */
  lemma {:induction false} WrapReachesGoal()
    ensures IsPath(Walled(), PythonIndex, Coord(0, 0), [Up, Right, Right, Down],
                   [Coord(-1, 0), Coord(-1, 1), Coord(-1, 2), Coord(0, 2)])
    ensures Reachable(Walled(), PythonIndex, Walled().goal)
  {
    var g := Walled();
    var acts := [Up, Right, Right, Down];
    var cells := [Coord(-1, 0), Coord(-1, 1), Coord(-1, 2), Coord(0, 2)];
    var froms := [Coord(0, 0), Coord(-1, 0), Coord(-1, 1), Coord(-1, 2)];
    forall i | 0 <= i < 4
      ensures StepOk(g, PythonIndex, Coord(0, 0), acts, cells, i)
    {
      assert cells[i] == Apply(froms[i], acts[i]);
      assert Lookup(g.walls, cells[i]) == Some(false);
      KeepMembers(g, PythonIndex, Candidates(froms[i]), Move(acts[i], cells[i]));
    }
    assert End(g.start, cells) == g.goal;
    assert IsPath(g, PythonIndex, g.start, acts, cells) && End(g.start, cells) == g.goal;
  }

  /** With bounds checking, nothing leaves the start of the walled maze, so
      its goal is unreachable and Search reports NoSolution. */
  lemma WalledUnsolvable()
    ensures !Reachable(Walled(), BoundsChecked, Walled().goal)
  {
    var g := Walled();
    forall m | m in ValidMoves(g, Coord(0, 0), BoundsChecked)
      ensures false
    {
      KeepMembers(g, BoundsChecked, Candidates(Coord(0, 0)), m);
    }
    ClosedHoldsReachable(g, BoundsChecked, {Coord(0, 0)});
  }
}
