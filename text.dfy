/** The maze text and the wall grid built from it (Maze.__init__ in maze.py). */
module MazeText {
  import opened Basics

  // ---------------------------------------------------------------------------
  // The grid model
  // ---------------------------------------------------------------------------

  /** The attributes Maze.__init__ sets: height, width, walls, start and goal. */
  datatype Grid = Grid(height: nat, width: nat, walls: seq<seq<bool>>, start: Coord, goal: Coord)
  {
    predicate InGrid(p: Coord)
    {
      0 <= p.row < height && 0 <= p.col < width
    }

    /** What a successfully parsed maze always satisfies: a rectangular grid
        with two distinct open cells for start and goal. */
    ghost predicate Valid()
    {
      && |walls| == height
      && (forall i :: 0 <= i < height ==> |walls[i]| == width)
      && InGrid(start) && InGrid(goal) && start != goal
      && !walls[start.row][start.col] && !walls[goal.row][goal.col]
    }
  }

  // ---------------------------------------------------------------------------
  // str.count and str.splitlines
  // ---------------------------------------------------------------------------

  /** Python's s.count(ch) for a one-character needle. */
  function Count(s: string, ch: char): (n: nat)
    ensures n <= |s|
    ensures n == 0 <==> ch !in s
  {
    multiset(s)[ch]
  }

  /** The characters on which Python's str.splitlines ends a line. */
  predicate IsLineBreak(c: char)
  {
    c == '\n' || c == '\r' || c == '\U{000B}' || c == '\U{000C}' || c == '\U{001C}' ||
    c == '\U{001D}' || c == '\U{001E}' || c == '\U{0085}' || c == '\U{2028}' || c == '\U{2029}'
  }

  /** Length of the first line of `s`: the index of its first line break, or |s|. */
  function LineEnd(s: string): (k: nat)
    ensures k <= |s|
    ensures forall i :: 0 <= i < k ==> !IsLineBreak(s[i])
    ensures k < |s| ==> IsLineBreak(s[k])
  {
    if s == [] || IsLineBreak(s[0]) then 0 else 1 + LineEnd(s[1..])
  }

  /** Python's str.splitlines(): "\r\n" ends a line as one unit, and a final
      line break does not open an empty last line. */
  function SplitLines(s: string): (lines: seq<string>)
    ensures forall i, j :: 0 <= i < |lines| && 0 <= j < |lines[i]| ==> !IsLineBreak(lines[i][j])
    ensures |lines| == 0 <==> s == []
    decreases |s|
  {
    if s == [] then []
    else
      var k := LineEnd(s);
      if k == |s| then [s]
      else
        [s[..k]] + SplitLines(s[NextLineStart(s)..])
  }

  /** `s` with every line-break character removed. */
  function Strip(s: string): string
  {
    if s == [] then [] else (if IsLineBreak(s[0]) then [] else [s[0]]) + Strip(s[1..])
  }

  function Concat(lines: seq<string>): string
  {
    if lines == [] then [] else lines[0] + Concat(lines[1..])
  }

  lemma {:induction false} StripAppend(a: string, b: string)
    ensures Strip(a + b) == Strip(a) + Strip(b)
  {
    if a != [] {
      assert (a + b)[0] == a[0];
      assert (a + b)[1..] == a[1..] + b;
      StripAppend(a[1..], b);
      var h := if IsLineBreak(a[0]) then [] else [a[0]];
      calc {
        Strip(a + b);
        h + Strip(a[1..] + b);
        h + (Strip(a[1..]) + Strip(b));
        (h + Strip(a[1..])) + Strip(b);
      }
    } else {
      assert a + b == b;
    }
  }

  lemma {:induction false} StripNoBreaks(s: string)
    requires forall i :: 0 <= i < |s| ==> !IsLineBreak(s[i])
    ensures Strip(s) == s
  {
    if s != [] {
      StripNoBreaks(s[1..]);
    }
  }

  lemma {:induction false} StripOnlyBreaks(s: string)
    requires forall i :: 0 <= i < |s| ==> IsLineBreak(s[i])
    ensures Strip(s) == []
  {
    if s != [] {
      StripOnlyBreaks(s[1..]);
    }
  }

  /** Where the first line of `s` ends and the rest of the text resumes. */
  function NextLineStart(s: string): (next: nat)
    requires LineEnd(s) < |s|
    ensures LineEnd(s) < next <= |s|
    ensures forall i :: LineEnd(s) <= i < next ==> IsLineBreak(s[i])
    ensures next == LineEnd(s) + 1 || (next == LineEnd(s) + 2 && s[LineEnd(s)] == '\r' && s[LineEnd(s) + 1] == '\n')
  {
    var k := LineEnd(s);
    if s[k] == '\r' && k + 1 < |s| && s[k + 1] == '\n' then k + 2 else k + 1
  }

  lemma SplitLinesUnfold(s: string)
    requires s != [] && LineEnd(s) < |s|
    ensures SplitLines(s) == [s[..LineEnd(s)]] + SplitLines(s[NextLineStart(s)..])
  {
  }

  /** The lines that splitlines returns are the text itself minus its line
      breaks: nothing else is lost, nothing is added. */
  lemma {:induction false} SplitLinesKeepsText(s: string)
    ensures Concat(SplitLines(s)) == Strip(s)
    decreases |s|
  {
    if s != [] {
      var k := LineEnd(s);
      if k == |s| {
        StripNoBreaks(s);
        assert Concat([s]) == s + Concat([]);
      } else {
        var next := NextLineStart(s);
        var line, gap, rest := s[..k], s[k..next], s[next..];
        assert s == line + (gap + rest);
        StripAppend(line, gap + rest);
        StripAppend(gap, rest);
        StripNoBreaks(line);
        StripOnlyBreaks(gap);
        SplitLinesKeepsText(rest);
        SplitLinesUnfold(s);
        var lines := [line] + SplitLines(rest);
        assert lines[0] == line && lines[1..] == SplitLines(rest);
        calc {
          Concat(SplitLines(s));
          Concat(lines);
          line + Concat(SplitLines(rest));
          line + Strip(rest);
          { assert Strip(gap) + Strip(rest) == [] + Strip(rest) == Strip(rest); }
          Strip(line) + (Strip(gap) + Strip(rest));
          Strip(s);
        }
      }
    }
  }

  /** Sum of Count over the lines. */
  function CountLines(lines: seq<string>, ch: char): nat
  {
    if lines == [] then 0 else Count(lines[0], ch) + CountLines(lines[1..], ch)
  }

  lemma {:induction false} StripKeepsCount(s: string, ch: char)
    requires !IsLineBreak(ch)
    ensures Count(Strip(s), ch) == Count(s, ch)
  {
    if s != [] {
      assert s == [s[0]] + s[1..];
      StripKeepsCount(s[1..], ch);
    }
  }

  lemma {:induction false} ConcatCount(lines: seq<string>, ch: char)
    ensures Count(Concat(lines), ch) == CountLines(lines, ch)
  {
    if lines != [] {
      ConcatCount(lines[1..], ch);
    }
  }

  /** Counting a marker before or after line splitting gives the same number,
      which is why maze.py may check the markers on the raw text. */
  lemma SplitLinesKeepsCount(s: string, ch: char)
    requires !IsLineBreak(ch)
    ensures CountLines(SplitLines(s), ch) == Count(s, ch)
  {
    SplitLinesKeepsText(s);
    ConcatCount(SplitLines(s), ch);
    StripKeepsCount(s, ch);
  }

  // ---------------------------------------------------------------------------
  // Markers
  // ---------------------------------------------------------------------------

  /** Line p.row exists, has a column p.col, and holds `ch` there. */
  predicate IsMarkerAt(lines: seq<string>, p: Coord, ch: char)
  {
    0 <= p.row < |lines| && 0 <= p.col < |lines[p.row]| && lines[p.row][p.col] == ch
  }

  lemma CountAtLeastOne(s: string, ch: char, j: int)
    requires 0 <= j < |s| && s[j] == ch
    ensures Count(s, ch) >= 1
  {
    assert s[j] in multiset(s);
  }

  lemma CountAtLeastTwo(s: string, ch: char, j1: int, j2: int)
    requires 0 <= j1 < j2 < |s| && s[j1] == ch && s[j2] == ch
    ensures Count(s, ch) >= 2
  {
    assert s == s[..j2] + s[j2..];
    assert s[..j2][j1] == ch && s[j2..][0] == ch;
    CountAtLeastOne(s[..j2], ch, j1);
    CountAtLeastOne(s[j2..], ch, 0);
  }

  lemma {:induction false} CountLinesAtLeast(lines: seq<string>, ch: char, i: int)
    requires 0 <= i < |lines|
    ensures CountLines(lines, ch) >= Count(lines[i], ch)
  {
    if i > 0 {
      CountLinesAtLeast(lines[1..], ch, i - 1);
    }
  }

  lemma {:induction false} CountLinesAtLeastTwo(lines: seq<string>, ch: char, i1: int, i2: int)
    requires 0 <= i1 < i2 < |lines|
    ensures CountLines(lines, ch) >= Count(lines[i1], ch) + Count(lines[i2], ch)
  {
    if i1 == 0 {
      CountLinesAtLeast(lines[1..], ch, i2 - 1);
    } else {
      CountLinesAtLeastTwo(lines[1..], ch, i1 - 1, i2 - 1);
    }
  }

  lemma {:induction false} CountLinesFind(lines: seq<string>, ch: char) returns (p: Coord)
    requires CountLines(lines, ch) > 0
    ensures IsMarkerAt(lines, p, ch)
  {
    if Count(lines[0], ch) > 0 {
      assert ch in multiset(lines[0]);
      var j :| 0 <= j < |lines[0]| && lines[0][j] == ch;
      p := Coord(0, j);
    } else {
      var q := CountLinesFind(lines[1..], ch);
      p := Coord(q.row + 1, q.col);
    }
  }

  /** A marker counted exactly once sits at exactly one position. */
  lemma UniqueMarker(lines: seq<string>, ch: char)
    requires CountLines(lines, ch) == 1
    ensures exists p :: IsMarkerAt(lines, p, ch)
    ensures forall p, q :: IsMarkerAt(lines, p, ch) && IsMarkerAt(lines, q, ch) ==> p == q
  {
    var w := CountLinesFind(lines, ch);
    forall p, q | IsMarkerAt(lines, p, ch) && IsMarkerAt(lines, q, ch)
      ensures p == q
    {
      if p.row == q.row && p.col != q.col {
        CountLinesAtLeast(lines, ch, p.row);
        if p.col < q.col {
          CountAtLeastTwo(lines[p.row], ch, p.col, q.col);
        } else {
          CountAtLeastTwo(lines[p.row], ch, q.col, p.col);
        }
      } else if p.row != q.row {
        CountAtLeastOne(lines[p.row], ch, p.col);
        CountAtLeastOne(lines[q.row], ch, q.col);
        if p.row < q.row {
          CountLinesAtLeastTwo(lines, ch, p.row, q.row);
        } else {
          CountLinesAtLeastTwo(lines, ch, q.row, p.row);
        }
      }
    }
  }

  /** A marker that occurs once in the raw text occurs at exactly one
      position of its lines. */
  lemma MarkerOnce(contents: string, ch: char)
    requires !IsLineBreak(ch) && Count(contents, ch) == 1
    ensures exists p :: IsMarkerAt(SplitLines(contents), p, ch)
    ensures forall p, q :: IsMarkerAt(SplitLines(contents), p, ch) && IsMarkerAt(SplitLines(contents), q, ch) ==> p == q
  {
    SplitLinesKeepsCount(contents, ch);
    UniqueMarker(SplitLines(contents), ch);
  }

  // ---------------------------------------------------------------------------
  // Parsing
  // ---------------------------------------------------------------------------

  /** Python's max(len(line) for line in lines); max() of nothing raises, so
      the lines must not be empty. */
  function MaxLength(lines: seq<string>): (m: nat)
    requires |lines| > 0
    ensures forall i :: 0 <= i < |lines| ==> |lines[i]| <= m
    ensures exists i :: 0 <= i < |lines| && |lines[i]| == m
  {
    if |lines| == 1 then |lines[0]|
    else
      var rest := MaxLength(lines[1..]);
      if |lines[0]| >= rest then |lines[0]| else rest
  }

  /** Whether cell (i, j) of the grid is a wall: it is exactly when line i has
      a column j holding anything but 'A', 'B' or a space. */
  function IsWallChar(lines: seq<string>, i: nat, j: nat): (b: bool)
    requires i < |lines|
    ensures b ==> j < |lines[i]| && !IsMarkerAt(lines, Coord(i, j), 'A') && !IsMarkerAt(lines, Coord(i, j), 'B')
    ensures !b && j < |lines[i]| ==> lines[i][j] in "AB "
  {
    j < |lines[i]| && lines[i][j] != 'A' && lines[i][j] != 'B' && lines[i][j] != ' '
  }

  /** The relation between a parsed grid and the lines it came from. */
  ghost predicate ParsedFrom(g: Grid, lines: seq<string>)
  {
    && |lines| > 0
    && g.height == |lines|
    && g.width == MaxLength(lines)
    && g.Valid()
    && (forall i, j :: 0 <= i < g.height && 0 <= j < g.width ==> g.walls[i][j] == IsWallChar(lines, i, j))
    && (forall p :: IsMarkerAt(lines, p, 'A') <==> p == g.start)
    && (forall p :: IsMarkerAt(lines, p, 'B') <==> p == g.goal)
  }

  /** The grid the row loop of Parse has built satisfies ParsedFrom. */
  lemma ParsedGrid(lines: seq<string>, walls: seq<seq<bool>>, a: Coord, b: Coord)
    requires |lines| > 0 && |walls| == |lines|
    requires forall i :: 0 <= i < |lines| ==> |walls[i]| == MaxLength(lines)
    requires forall i, j :: 0 <= i < |lines| && 0 <= j < MaxLength(lines) ==> walls[i][j] == IsWallChar(lines, i, j)
    requires IsMarkerAt(lines, a, 'A') && IsMarkerAt(lines, b, 'B')
    requires forall p, q :: IsMarkerAt(lines, p, 'A') && IsMarkerAt(lines, q, 'A') ==> p == q
    requires forall p, q :: IsMarkerAt(lines, p, 'B') && IsMarkerAt(lines, q, 'B') ==> p == q
    ensures ParsedFrom(Grid(|lines|, MaxLength(lines), walls, a, b), lines)
  {
    var g := Grid(|lines|, MaxLength(lines), walls, a, b);
    assert g.walls[a.row][a.col] == IsWallChar(lines, a.row, a.col);
    assert g.walls[b.row][b.col] == IsWallChar(lines, b.row, b.col);
  }

  /** One pass of the inner loop of Maze.__init__: the walls of line i,
      padded to `width`, and the columns at which 'A' and 'B' were seen. */
  method ParseRow(lines: seq<string>, i: nat, width: nat) returns (row: seq<bool>, startCol: Option<nat>, goalCol: Option<nat>)
    requires i < |lines| && |lines[i]| <= width
    ensures |row| == width
    ensures forall j :: 0 <= j < width ==> row[j] == IsWallChar(lines, i, j)
    ensures startCol.Some? ==> IsMarkerAt(lines, Coord(i, startCol.value), 'A')
    ensures startCol.None? ==> forall j :: 0 <= j < |lines[i]| ==> lines[i][j] != 'A'
    ensures goalCol.Some? ==> IsMarkerAt(lines, Coord(i, goalCol.value), 'B')
    ensures goalCol.None? ==> forall j :: 0 <= j < |lines[i]| ==> lines[i][j] != 'B'
  {
    row, startCol, goalCol := [], None, None;
    for j := 0 to width
      invariant |row| == j
      invariant forall j' :: 0 <= j' < j ==> row[j'] == IsWallChar(lines, i, j')
      invariant startCol.Some? ==> IsMarkerAt(lines, Coord(i, startCol.value), 'A')
      invariant startCol.None? ==> forall j' :: 0 <= j' < j && j' < |lines[i]| ==> lines[i][j'] != 'A'
      invariant goalCol.Some? ==> IsMarkerAt(lines, Coord(i, goalCol.value), 'B')
      invariant goalCol.None? ==> forall j' :: 0 <= j' < j && j' < |lines[i]| ==> lines[i][j'] != 'B'
    {
      if j < |lines[i]| {
        var ch := lines[i][j];
        if ch == 'A' {
          startCol := Some(j);
          row := row + [false];
        } else if ch == 'B' {
          goalCol := Some(j);
          row := row + [false];
        } else if ch == ' ' {
          row := row + [false];
        } else {
          row := row + [true];
        }
      } else {
        // contents[i][j] raises IndexError: a missing column is open
        row := row + [false];
      }
    }
  }

  /** What ParseRow's report of a marker column says about the one marker
      position `p` of the text: Some(col) is p itself, None puts p on
      another line. */
  lemma MarkerRow(lines: seq<string>, i: nat, col: Option<nat>, ch: char, p: Coord)
    requires i < |lines| && IsMarkerAt(lines, p, ch)
    requires forall p', q :: IsMarkerAt(lines, p', ch) && IsMarkerAt(lines, q, ch) ==> p' == q
    requires col.Some? ==> IsMarkerAt(lines, Coord(i, col.value), ch)
    requires col.None? ==> forall j :: 0 <= j < |lines[i]| ==> lines[i][j] != ch
    ensures col.Some? ==> Coord(i, col.value) == p
    ensures col.None? ==> p.row != i
  {
  }

  /** The outer loop of Maze.__init__: every line becomes a row of walls of
      the full width, and the one 'A' and the one 'B' are recorded. */
  method ParseRows(lines: seq<string>, width: nat, ghost a: Coord, ghost b: Coord)
    returns (walls: seq<seq<bool>>, start: Option<Coord>, goal: Option<Coord>)
    requires |lines| > 0 && width == MaxLength(lines)
    requires IsMarkerAt(lines, a, 'A') && IsMarkerAt(lines, b, 'B')
    requires forall p, q :: IsMarkerAt(lines, p, 'A') && IsMarkerAt(lines, q, 'A') ==> p == q
    requires forall p, q :: IsMarkerAt(lines, p, 'B') && IsMarkerAt(lines, q, 'B') ==> p == q
    ensures |walls| == |lines| && forall i :: 0 <= i < |lines| ==> |walls[i]| == width
    ensures forall i, j :: 0 <= i < |lines| && 0 <= j < width ==> walls[i][j] == IsWallChar(lines, i, j)
    ensures start == Some(a) && goal == Some(b)
  {
    walls, start, goal := [], None, None;
    for i := 0 to |lines|
      invariant |walls| == i
      invariant forall i' :: 0 <= i' < i ==> |walls[i']| == width
      invariant forall i', j :: 0 <= i' < i && 0 <= j < width ==> walls[i'][j] == IsWallChar(lines, i', j)
      invariant start == if a.row < i then Some(a) else None
      invariant goal == if b.row < i then Some(b) else None
    {
      var row, startCol, goalCol := ParseRow(lines, i, width);
      MarkerRow(lines, i, startCol, 'A', a);
      MarkerRow(lines, i, goalCol, 'B', b);
      if startCol.Some? {
        start := Some(Coord(i, startCol.value));
      }
      if goalCol.Some? {
        goal := Some(Coord(i, goalCol.value));
      }
      walls := walls + [row];
    }
  }

  /** Maze.__init__ once the file has been read into `contents`: the marker
      checks on the raw text, then the wall grid row by row. */
  method Parse(contents: string) returns (r: Result<Grid>)
    ensures r == Failure(BadStartCount) <==> Count(contents, 'A') != 1
    ensures r == Failure(BadGoalCount) <==> Count(contents, 'A') == 1 && Count(contents, 'B') != 1
    ensures r.Success? <==> Count(contents, 'A') == 1 && Count(contents, 'B') == 1
    ensures r.Success? ==> ParsedFrom(r.value, SplitLines(contents))
  {
    if Count(contents, 'A') != 1 {
      return Failure(BadStartCount);
    }
    if Count(contents, 'B') != 1 {
      return Failure(BadGoalCount);
    }
    var lines := SplitLines(contents);
    MarkerOnce(contents, 'A');
    MarkerOnce(contents, 'B');
    var height := |lines|;
    var width := MaxLength(lines);
    ghost var a :| IsMarkerAt(lines, a, 'A');
    ghost var b :| IsMarkerAt(lines, b, 'B');
    var walls, start, goal := ParseRows(lines, width, a, b);
    ParsedGrid(lines, walls, a, b);
    r := Success(Grid(height, width, walls, start.value, goal.value));
  }
}
