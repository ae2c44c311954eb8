/** Values shared by every part of the maze solver: coordinates, moves and the
    typed failures that replace the exceptions raised by maze.py. */
module Basics {

  datatype Option<T> = None | Some(value: T)

  /** The three ways the solver fails. maze.py raises a bare Exception for each;
      the start and goal checks of the parser are kept apart because the source
      checks (and reports) them one after the other. */
  datatype MazeError =
    | BadStartCount   // the text does not hold exactly one 'A'
    | BadGoalCount    // the text does not hold exactly one 'B'
    | EmptyFrontier   // remove() on an empty frontier
    | NoSolution      // the frontier ran dry before the goal was reached

  datatype Result<T> = Success(value: T) | Failure(error: MazeError)

  /** A search state: a (row, column) pair. Rows and columns are unbounded
      integers, because maze.py's neighbour lookup lets negative indices through. */
  datatype Coord = Coord(row: int, col: int)

  datatype Action = Up | Down | Left | Right

  /** The pair ("up", (r - 1, c)) and its kin built by Maze.neighbors. */
  datatype Move = Move(action: Action, target: Coord)

  /** The coordinate one step away from `s` in the direction of `a`. */
  function Apply(s: Coord, a: Action): (t: Coord)
    ensures (t.row - s.row) * (t.row - s.row) + (t.col - s.col) * (t.col - s.col) == 1
    ensures a == Up || a == Down <==> t.col == s.col
    ensures a == Up || a == Left <==> t.row + t.col < s.row + s.col
  {
    match a
    case Up => Coord(s.row - 1, s.col)
    case Down => Coord(s.row + 1, s.col)
    case Left => Coord(s.row, s.col - 1)
    case Right => Coord(s.row, s.col + 1)
  }

  /** Position of an action in the fixed order in which neighbours are tried. */
  function Rank(a: Action): nat
  {
    match a
    case Up => 0
    case Down => 1
    case Left => 2
    case Right => 3
  }

  /** Python's in-place list.reverse(), as a value. */
  function Reverse<T>(s: seq<T>): (r: seq<T>)
    ensures |r| == |s|
    ensures forall i :: 0 <= i < |s| ==> r[i] == s[|s| - 1 - i]
  {
    if s == [] then [] else [s[|s| - 1]] + Reverse(s[..|s| - 1])
  }

  lemma ReverseSnoc<T>(s: seq<T>, x: T)
    ensures Reverse(s + [x]) == [x] + Reverse(s)
  {
    assert (s + [x])[..|s|] == s;
  }
}
