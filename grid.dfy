// The tile grid: rounding to tile centres, the wall lookup that treats
// everything outside the grid as open (the tunnels), and the cash count.

module Grid {
  import opened Types

  /** JavaScript's Math.round: halves round towards +infinity. */
  function Round(x: real): (r: int)
    ensures r as real - 0.5 <= x < r as real + 0.5
  {
    (x + 0.5).Floor
  }

  function Abs(r: real): real {
    if r < 0.0 then -r else r
  }

  /** A maze with at least one row and one column, every row as wide as the first. */
  ghost predicate Rectangular(maze: seq<seq<Tile>>) {
    |maze| > 0 && |maze[0]| > 0 && forall r :: 0 <= r < |maze| ==> |maze[r]| == |maze[0]|
  }

  function Width(maze: seq<seq<Tile>>): nat
    requires |maze| > 0
  {
    |maze[0]|
  }

  predicate InGrid(maze: seq<seq<Tile>>, col: int, row: int) {
    0 <= row < |maze| && 0 <= col < |maze[row]|
  }

  /**
   * The wall lookup: the coordinates are rounded to a tile; a tile outside
   * the rows, or outside the columns of the first row, is open.
   */
  function IsWall(maze: seq<seq<Tile>>, x: real, y: real): (r: bool)
    requires Rectangular(maze)
    ensures r <==> InGrid(maze, Round(x), Round(y)) && maze[Round(y)][Round(x)] == Wall
  {
    var rx := Round(x);
    var ry := Round(y);
    if ry < 0 || ry >= |maze| || rx < 0 || rx >= |maze[0]| then false
    else maze[ry][rx] == Wall
  }

  /** Every point of a tile's square answers the lookup as its centre does. */
  lemma IsWallByTile(maze: seq<seq<Tile>>, x: real, y: real, col: int, row: int)
    requires Rectangular(maze)
    requires col as real - 0.5 <= x < col as real + 0.5
    requires row as real - 0.5 <= y < row as real + 0.5
    ensures IsWall(maze, x, y) == IsWall(maze, col as real, row as real)
    ensures IsWall(maze, x, y) <==> InGrid(maze, col, row) && maze[row][col] == Wall
  {
    RoundOfTile(x, col);
    RoundOfTile(y, row);
    RoundOfTile(col as real, col);
    RoundOfTile(row as real, row);
  }

  lemma RoundOfTile(x: real, c: int)
    requires c as real - 0.5 <= x < c as real + 0.5
    ensures Round(x) == c
  {
  }

  /** Column and row offsets of one step in a direction. */
  function DeltaX(d: Direction): int {
    match d
    case Left => -1
    case Right => 1
    case _ => 0
  }

  function DeltaY(d: Direction): int {
    match d
    case Up => -1
    case Down => 1
    case _ => 0
  }

  /** The way back undoes the step (Up and Down, Left and Right pair up), and is its own inverse. */
  lemma OppositeUndoes(d: Direction)
    ensures DeltaX(Opposite(d)) == -DeltaX(d) && DeltaY(Opposite(d)) == -DeltaY(d)
    ensures Opposite(Opposite(d)) == d
  {
  }

  /** Whether the tile next to (cx, cy) in direction d is a wall; never for `None`. */
  function WallAhead(maze: seq<seq<Tile>>, cx: int, cy: int, d: Direction): (r: bool)
    requires Rectangular(maze)
    ensures r ==> d != None
    ensures d != None ==> (r <==> IsWall(maze, (cx + DeltaX(d)) as real, (cy + DeltaY(d)) as real))
  {
    match d
    case Up => IsWall(maze, cx as real, (cy - 1) as real)
    case Down => IsWall(maze, cx as real, (cy + 1) as real)
    case Left => IsWall(maze, (cx - 1) as real, cy as real)
    case Right => IsWall(maze, (cx + 1) as real, cy as real)
    case None => false
  }

  /** The maze with one tile replaced. */
  function SetTile(maze: seq<seq<Tile>>, col: int, row: int, t: Tile): (r: seq<seq<Tile>>)
    requires InGrid(maze, col, row)
    ensures |r| == |maze|
    ensures forall i :: 0 <= i < |r| ==> |r[i]| == |maze[i]|
    ensures r[row][col] == t
    ensures forall i, j :: 0 <= i < |r| && 0 <= j < |r[i]| && (i, j) != (row, col) ==> r[i][j] == maze[i][j]
  {
    maze[row := maze[row][col := t]]
  }

  /** The number of Cash tiles in a row. */
  function CashInRow(row: seq<Tile>): nat {
    if row == [] then 0
    else CashInRow(row[..|row| - 1]) + (if row[|row| - 1] == Cash then 1 else 0)
  }

  /** The number of Cash tiles in the maze (the flattened maze filtered on Cash). */
  function CountCash(maze: seq<seq<Tile>>): nat {
    if maze == [] then 0
    else CountCash(maze[..|maze| - 1]) + CashInRow(maze[|maze| - 1])
  }

  lemma {:induction false} CashInRowSet(row: seq<Tile>, col: int, t: Tile)
    requires 0 <= col < |row|
    ensures CashInRow(row[col := t]) + (if row[col] == Cash then 1 else 0)
         == CashInRow(row) + (if t == Cash then 1 else 0)
  {
    var n := |row|;
    if col < n - 1 {
      assert row[col := t][..n - 1] == row[..n - 1][col := t];
      CashInRowSet(row[..n - 1], col, t);
    } else {
      assert row[col := t][..n - 1] == row[..n - 1];
    }
  }

  /** Replacing one tile changes the cash count by exactly what was replaced. */
  lemma {:induction false} CountCashSetTile(maze: seq<seq<Tile>>, col: int, row: int, t: Tile)
    requires InGrid(maze, col, row)
    ensures CountCash(maze[row := maze[row][col := t]]) + (if maze[row][col] == Cash then 1 else 0)
         == CountCash(maze) + (if t == Cash then 1 else 0)
  {
    var n := |maze|;
    var m' := maze[row := maze[row][col := t]];
    if row < n - 1 {
      assert m'[..n - 1] == maze[..n - 1][row := maze[row][col := t]];
      CountCashSetTile(maze[..n - 1], col, row, t);
    } else {
      assert m'[..n - 1] == maze[..n - 1];
      CashInRowSet(maze[row], col, t);
    }
  }

  /** Consuming a Cash tile leaves exactly one Cash tile fewer; any other consumption none fewer. */
  lemma ConsumeCount(maze: seq<seq<Tile>>, col: int, row: int)
    requires InGrid(maze, col, row)
    ensures maze[row][col] == Cash ==> CountCash(SetTile(maze, col, row, Empty)) == CountCash(maze) - 1
    ensures maze[row][col] != Cash ==> CountCash(SetTile(maze, col, row, Empty)) == CountCash(maze)
  {
    CountCashSetTile(maze, col, row, Empty);
  }
}
