/** What each cell of the maze shows (Maze.print and Maze.output_image in
    maze.py), as a category rather than a character or a colour. */
module Display {
  import opened Basics
  import opened MazeText
  import opened Neighborhood
  import opened SearchTheory

  datatype Category = WallCell | StartCell | GoalCell | SolutionCell | ExploredCell | EmptyCell

  /** The if/elif chain of print(): wall, start, goal, solution cell, else
      empty. `solution` is self.solution. */
  function PrintCell(g: Grid, solution: Option<Solution>, i: nat, j: nat): (c: Category)
    requires i < |g.walls| && j < |g.walls[i]|
    ensures c == WallCell <==> g.walls[i][j]
    ensures c != ExploredCell
    ensures c == SolutionCell ==> solution.Some? && Coord(i, j) in solution.value.cells
  {
    if g.walls[i][j] then WallCell
    else if Coord(i, j) == g.start then StartCell
    else if Coord(i, j) == g.goal then GoalCell
    else if solution.Some? && Coord(i, j) in solution.value.cells then SolutionCell
    else EmptyCell
  }

  /** The if/elif chain of output_image(): as print(), with the solution
      shown only under show_solution, and explored cells shown under
      show_explored but only once a solution exists. */
  function ImageCell(g: Grid, solution: Option<Solution>, explored: set<Coord>, showSolution: bool, showExplored: bool,
                     i: nat, j: nat): (c: Category)
    requires i < |g.walls| && j < |g.walls[i]|
    ensures c == WallCell <==> g.walls[i][j]
    ensures c == SolutionCell ==> solution.Some? && showSolution && Coord(i, j) in solution.value.cells
    ensures c == ExploredCell ==> solution.Some? && showExplored && Coord(i, j) in explored
  {
    if g.walls[i][j] then WallCell
    else if Coord(i, j) == g.start then StartCell
    else if Coord(i, j) == g.goal then GoalCell
    else if solution.Some? && showSolution && Coord(i, j) in solution.value.cells then SolutionCell
    else if solution.Some? && showExplored && Coord(i, j) in explored then ExploredCell
    else EmptyCell
  }

  /** print() decides each cell as output_image() does with the solution
      shown and the explored cells hidden. */
  lemma PrintIsImage(g: Grid, solution: Option<Solution>, explored: set<Coord>, i: nat, j: nat)
    requires i < |g.walls| && j < |g.walls[i]|
    ensures PrintCell(g, solution, i, j) == ImageCell(g, solution, explored, true, false, i, j)
  {
  }

  /** The precedence wall > start > goal > solution > explored > empty: a
      category shows exactly when its own test holds and no earlier one
      does. */
  lemma Precedence(g: Grid, solution: Option<Solution>, explored: set<Coord>, showSolution: bool, showExplored: bool,
                   i: nat, j: nat)
    requires i < |g.walls| && j < |g.walls[i]|
    ensures var c := ImageCell(g, solution, explored, showSolution, showExplored, i, j);
            var p := Coord(i, j);
            var onPath := solution.Some? && showSolution && p in solution.value.cells;
            var seen := solution.Some? && showExplored && p in explored;
            && (c == StartCell <==> !g.walls[i][j] && p == g.start)
            && (c == GoalCell <==> !g.walls[i][j] && p != g.start && p == g.goal)
            && (c == SolutionCell <==> !g.walls[i][j] && p != g.start && p != g.goal && onPath)
            && (c == ExploredCell <==> !g.walls[i][j] && p != g.start && p != g.goal && !onPath && seen)
            && (c == EmptyCell <==> !g.walls[i][j] && p != g.start && p != g.goal && !onPath && !seen)
  {
  }

  /** Without a solution neither print() nor output_image() shows solution
      or explored cells, whatever the flags. */
  lemma NothingWithoutSolution(g: Grid, explored: set<Coord>, showSolution: bool, showExplored: bool, i: nat, j: nat)
    requires i < |g.walls| && j < |g.walls[i]|
    ensures ImageCell(g, None, explored, showSolution, showExplored, i, j) !in {SolutionCell, ExploredCell}
    ensures PrintCell(g, None, i, j) != SolutionCell
  {
  }

  /** On a parsed grid the start and goal cells always show as such. */
  lemma MarkersShown(g: Grid, solution: Option<Solution>, explored: set<Coord>, showSolution: bool, showExplored: bool)
    requires g.Valid()
    ensures ImageCell(g, solution, explored, showSolution, showExplored, g.start.row, g.start.col) == StartCell
    ensures ImageCell(g, solution, explored, showSolution, showExplored, g.goal.row, g.goal.col) == GoalCell
  {
  }

  /** With bounds checking, every cell of a solution lies on the grid and,
      but for the goal, is drawn as a solution cell when solutions are shown. */
  lemma SolutionCellsShown(g: Grid, sol: Solution, explored: set<Coord>, showExplored: bool)
    requires g.Valid() && ValidSolution(g, BoundsChecked, sol)
    ensures forall c :: c in sol.cells ==> g.InGrid(c)
    ensures forall c :: c in sol.cells && c != g.goal ==>
              g.InGrid(c) && ImageCell(g, Some(sol), explored, true, showExplored, c.row, c.col) == SolutionCell
  {
    PathInGrid(g, sol);
  }

  /** With bounds checking, each state the search explored on its way to a
      solution is drawn as explored under show_explored, unless it is the
      start or lies on the solution. */
  lemma ExploredCellsShown(g: Grid, r: SearchResult)
    requires g.Valid() && CorrectResult(g, BoundsChecked, r) && r.outcome.Success?
    ensures forall t :: t in r.explored ==> g.InGrid(t)
    ensures forall t :: t in r.explored && t != g.start && t !in r.outcome.value.cells ==>
              g.InGrid(t) && ImageCell(g, Some(r.outcome.value), r.explored, true, true, t.row, t.col) == ExploredCell
  {
    forall t | t in r.explored
      ensures g.InGrid(t) && !g.walls[t.row][t.col]
    {
      ReachableInGrid(g, t);
    }
  }

  // ---------------------------------------------------------------------------
  // The rows print() writes, and reading them back
  // ---------------------------------------------------------------------------

  /** The character print() writes for a category. */
  function Glyph(c: Category): (ch: char)
    ensures ch == '\U{2588}' <==> c == WallCell
    ensures ch == 'A' <==> c == StartCell
    ensures ch == 'B' <==> c == GoalCell
    ensures ch == '*' <==> c == SolutionCell
    ensures !IsLineBreak(ch)
  {
    match c
    case WallCell => '\U{2588}'
    case StartCell => 'A'
    case GoalCell => 'B'
    case SolutionCell => '*'
    case ExploredCell => ' '
    case EmptyCell => ' '
  }

  /** Row i as print() writes it, without its line break. */
  function PrintRow(g: Grid, solution: Option<Solution>, i: nat): (row: string)
    requires i < |g.walls|
    ensures |row| == |g.walls[i]|
    ensures forall j :: 0 <= j < |row| ==> row[j] == Glyph(PrintCell(g, solution, i, j))
  {
    seq(|g.walls[i]|, j requires 0 <= j < |g.walls[i]| => Glyph(PrintCell(g, solution, i, j)))
  }

  function PrintedRows(g: Grid, solution: Option<Solution>): (rows: seq<string>)
    ensures |rows| == |g.walls|
    ensures forall i :: 0 <= i < |rows| ==> rows[i] == PrintRow(g, solution, i)
  {
    seq(|g.walls|, i requires 0 <= i < |g.walls| => PrintRow(g, solution, i))
  }

  /** Each line followed by a newline, as print() ends every row. */
  function JoinLines(lines: seq<string>): (text: string)
    ensures lines == [] <==> text == []
    ensures lines != [] ==> text[|text| - 1] == '\n'
  {
    if lines == [] then [] else lines[0] + "\n" + JoinLines(lines[1..])
  }

  /** The text print() writes between its leading and trailing empty lines. */
  function PrintedText(g: Grid, solution: Option<Solution>): (text: string)
    ensures SplitLines(text) == PrintedRows(g, solution)
  {
    var rows := PrintedRows(g, solution);
    assert forall i, j :: 0 <= i < |rows| && 0 <= j < |rows[i]| ==> rows[i][j] == Glyph(PrintCell(g, solution, i, j));
    SplitJoin(rows);
    JoinLines(rows)
  }

  lemma {:induction false} LineEndAtBreak(line: string, rest: string)
    requires forall j :: 0 <= j < |line| ==> !IsLineBreak(line[j])
    requires rest != [] && IsLineBreak(rest[0])
    ensures LineEnd(line + rest) == |line|
  {
    if line != [] {
      assert (line + rest)[1..] == line[1..] + rest;
      LineEndAtBreak(line[1..], rest);
    }
  }

  /** splitlines() undoes JoinLines on lines without line breaks. */
  lemma {:induction false} SplitJoin(lines: seq<string>)
    requires forall i, j :: 0 <= i < |lines| && 0 <= j < |lines[i]| ==> !IsLineBreak(lines[i][j])
    ensures SplitLines(JoinLines(lines)) == lines
  {
    if lines != [] {
      var line, rest := lines[0], JoinLines(lines[1..]);
      var s := JoinLines(lines);
      assert s == line + ("\n" + rest);
      LineEndAtBreak(line, "\n" + rest);
      assert s[|line|] == '\n';
      assert s[..|line|] == line;
      assert s[|line| + 1..] == rest;
      SplitJoin(lines[1..]);
      SplitLinesUnfold(s);
    }
  }

  lemma {:induction false} JoinCount(lines: seq<string>, ch: char)
    requires ch != '\n'
    ensures Count(JoinLines(lines), ch) == CountLines(lines, ch)
  {
    if lines != [] {
      JoinCount(lines[1..], ch);
      assert JoinLines(lines) == lines[0] + "\n" + JoinLines(lines[1..]);
    }
  }

  lemma CountNone(s: string, ch: char)
    requires forall j :: 0 <= j < |s| ==> s[j] != ch
    ensures Count(s, ch) == 0
  {
  }

  lemma CountOne(s: string, ch: char, k: nat)
    requires k < |s| && s[k] == ch
    requires forall j :: 0 <= j < |s| && j != k ==> s[j] != ch
    ensures Count(s, ch) == 1
  {
    assert s == s[..k] + [ch] + s[k + 1..];
    CountNone(s[..k], ch);
    CountNone(s[k + 1..], ch);
  }

  lemma {:induction false} CountLinesOne(lines: seq<string>, ch: char, r: nat)
    requires r < |lines| && Count(lines[r], ch) == 1
    requires forall i :: 0 <= i < |lines| && i != r ==> Count(lines[i], ch) == 0
    ensures CountLines(lines, ch) == 1
  {
    if r == 0 {
      CountLinesNone(lines[1..], ch);
    } else {
      CountLinesOne(lines[1..], ch, r - 1);
    }
  }

  lemma {:induction false} CountLinesNone(lines: seq<string>, ch: char)
    requires forall i :: 0 <= i < |lines| ==> Count(lines[i], ch) == 0
    ensures CountLines(lines, ch) == 0
  {
    if lines != [] {
      CountLinesNone(lines[1..], ch);
    }
  }

  /** A printed cell of a grid without a solution holds 'A' exactly at
      start and 'B' exactly at goal. */
  lemma GlyphMarker(g: Grid, i: nat, j: nat)
    requires g.Valid() && i < g.height && j < g.width
    ensures Glyph(PrintCell(g, None, i, j)) == 'A' <==> Coord(i, j) == g.start
    ensures Glyph(PrintCell(g, None, i, j)) == 'B' <==> Coord(i, j) == g.goal
  {
  }

  /** In the printed rows of a parsed grid without a solution, 'A' occurs
      exactly at start and 'B' exactly at goal, once each. */
  lemma MarkerPrinted(g: Grid, ch: char, p: Coord)
    requires g.Valid() && (ch == 'A' || ch == 'B') && p == (if ch == 'A' then g.start else g.goal)
    ensures CountLines(PrintedRows(g, None), ch) == 1
    ensures forall q :: IsMarkerAt(PrintedRows(g, None), q, ch) <==> q == p
  {
    var rows := PrintedRows(g, None);
    forall i, j | 0 <= i < |rows| && 0 <= j < |rows[i]|
      ensures rows[i][j] == ch <==> Coord(i, j) == p
    {
      GlyphMarker(g, i, j);
    }
    forall i | 0 <= i < |rows|
      ensures Count(rows[i], ch) == (if i == p.row then 1 else 0)
    {
      if i == p.row {
        CountOne(rows[i], ch, p.col);
      } else {
        CountNone(rows[i], ch);
      }
    }
    CountLinesOne(rows, ch, p.row);
  }

  /** The printed rows of a parsed grid without a solution are lines from
      which that grid is parsed. */
  lemma PrintedRowsParse(g: Grid)
    requires g.Valid()
    ensures ParsedFrom(g, PrintedRows(g, None))
  {
    var rows := PrintedRows(g, None);
    forall i | 0 <= i < |rows|
      ensures |rows[i]| == g.width
    {
    }
    assert |rows[0]| == g.width;
    assert MaxLength(rows) == g.width;
    forall i, j | 0 <= i < g.height && 0 <= j < g.width
      ensures g.walls[i][j] == IsWallChar(rows, i, j)
    {
      assert rows[i][j] == Glyph(PrintCell(g, None, i, j));
    }
    MarkerPrinted(g, 'A', g.start);
    MarkerPrinted(g, 'B', g.goal);
  }

  /** Printing a parsed maze without a solution and parsing the rows back
      gives the same maze: both markers occur once, the text splits back
      into the printed rows, and those rows parse to the grid itself. */
  lemma PrintThenParse(g: Grid)
    requires g.Valid()
    ensures Count(PrintedText(g, None), 'A') == 1 && Count(PrintedText(g, None), 'B') == 1
    ensures SplitLines(PrintedText(g, None)) == PrintedRows(g, None)
    ensures ParsedFrom(g, SplitLines(PrintedText(g, None)))
  {
    var rows := PrintedRows(g, None);
    forall i, j | 0 <= i < |rows| && 0 <= j < |rows[i]|
      ensures !IsLineBreak(rows[i][j])
    {
      assert rows[i][j] == Glyph(PrintCell(g, None, i, j));
    }
    SplitJoin(rows);
    MarkerPrinted(g, 'A', g.start);
    MarkerPrinted(g, 'B', g.goal);
    JoinCount(rows, 'A');
    JoinCount(rows, 'B');
    PrintedRowsParse(g);
  }

  /** The lines determine the parsed grid. */
  lemma ParsedFromUnique(g1: Grid, g2: Grid, lines: seq<string>)
    requires ParsedFrom(g1, lines) && ParsedFrom(g2, lines)
    ensures g1 == g2
  {
    assert IsMarkerAt(lines, g1.start, 'A');
    assert IsMarkerAt(lines, g1.goal, 'B');
    assert |g1.walls| == |g2.walls|;
    forall i | 0 <= i < |g1.walls|
      ensures g1.walls[i] == g2.walls[i]
    {
      assert |g1.walls[i]| == |g2.walls[i]|;
    }
  }
}
