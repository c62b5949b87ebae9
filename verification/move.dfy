/** One player step: the bound and tile checks, and the update of the map and the player. */
module Move {
  import opened Dungeon
  import Direction

  /** The movement statuses; `Code` gives the integer the game reports for each. */
  datatype Status = Blocked | Moved | TreasureFound | AmuletFound | DoorFound | ExitFound

  function Code(s: Status): (n: int)
    ensures 0 <= n <= 5
    ensures n == 0 <==> s == Blocked
  {
    match s
    case Blocked => 0
    case Moved => 1
    case TreasureFound => 2
    case AmuletFound => 3
    case DoorFound => 4
    case ExitFound => 5
  }

  /** Distinct statuses are reported as distinct codes. */
  lemma CodeInjective(s: Status, s': Status)
    ensures Code(s) == Code(s') ==> s == s'
  {
  }

  datatype Outcome = Outcome(grid: Grid, player: Player, status: Status)

  /** The player leaves its cell (now open floor) for (nextRow, nextCol), holding `treasure`. */
  function Step(g: Grid, p: Player, nextRow: int, nextCol: int, treasure: int, s: Status): (r: Outcome)
    requires 0 <= p.row < |g| && 0 <= p.col < |g[p.row]|
    requires 0 <= nextRow < |g| && 0 <= nextCol < |g[nextRow]|
    ensures |r.grid| == |g| && forall i :: 0 <= i < |g| ==> |r.grid[i]| == |g[i]|
    ensures r.player == Player(nextRow, nextCol, treasure) && r.status == s
    ensures r.grid[nextRow][nextCol] == PlayerTile
    ensures nextRow != p.row || nextCol != p.col ==> r.grid[p.row][p.col] == Open
    ensures forall i, j ::
      (0 <= i < |g| && 0 <= j < |g[i]| && (i != p.row || j != p.col) && (i != nextRow || j != nextCol))
      ==> r.grid[i][j] == g[i][j]
  {
    var left := Set(g, p.row, p.col, Open);
    Outcome(Set(left, nextRow, nextCol, PlayerTile), Player(nextRow, nextCol, treasure), s)
  }

  /**
   Moves the player to (nextRow, nextCol) when that cell is inside the map and holds open floor,
   treasure, the amulet, the door, or the exit with at least one treasure collected.
   */
  function DoPlayerMove(g: Grid, rows: int, cols: int, p: Player, nextRow: int, nextCol: int): (r: Outcome)
    requires IsGrid(g, rows, cols) && InBounds(rows, cols, p.row, p.col)
    ensures IsGrid(r.grid, rows, cols)
    ensures r.status == Blocked ==> r.grid == g && r.player == p
    ensures r.status != Blocked ==>
      && InBounds(rows, cols, nextRow, nextCol)
      && r.player.row == nextRow && r.player.col == nextCol
      && r.grid[nextRow][nextCol] == PlayerTile
      && (nextRow != p.row || nextCol != p.col ==> r.grid[p.row][p.col] == Open)
      && forall i, j :: InBounds(rows, cols, i, j) && (i != p.row || j != p.col) && (i != nextRow || j != nextCol)
           ==> r.grid[i][j] == g[i][j]
    ensures r.player.treasure == p.treasure + (if r.status == TreasureFound then 1 else 0)
    ensures r.status == Moved <==> InBounds(rows, cols, nextRow, nextCol) && g[nextRow][nextCol] == Open
    ensures r.status == TreasureFound <==> InBounds(rows, cols, nextRow, nextCol) && g[nextRow][nextCol] == Treasure
    ensures r.status == AmuletFound <==> InBounds(rows, cols, nextRow, nextCol) && g[nextRow][nextCol] == Amulet
    ensures r.status == DoorFound <==> InBounds(rows, cols, nextRow, nextCol) && g[nextRow][nextCol] == Door
    ensures r.status == ExitFound <==>
      InBounds(rows, cols, nextRow, nextCol) && g[nextRow][nextCol] == Exit && p.treasure > 0
  {
    if nextCol >= cols || nextCol < 0 then Outcome(g, p, Blocked)
    else if nextRow >= rows || nextRow < 0 then Outcome(g, p, Blocked)
    else
      var t := g[nextRow][nextCol];
      if t == Pillar || t == MonsterTile then Outcome(g, p, Blocked)
      else if t == Open then Step(g, p, nextRow, nextCol, p.treasure, Moved)
      else if t == Treasure then Step(g, p, nextRow, nextCol, p.treasure + 1, TreasureFound)
      else if t == Amulet then Step(g, p, nextRow, nextCol, p.treasure, AmuletFound)
      else if t == Door then Step(g, p, nextRow, nextCol, p.treasure, DoorFound)
      else if t == Exit then
        if p.treasure > 0 then Step(g, p, nextRow, nextCol, p.treasure, ExitFound)
        else Outcome(g, p, Blocked)
      else Outcome(g, p, Blocked)
  }

  /** A move keeps the map invariant: the player tile stays unique and follows the player. */
  lemma MoveKeepsPlayerUnique(g: Grid, rows: int, cols: int, p: Player, nextRow: int, nextCol: int)
    requires IsGrid(g, rows, cols) && PlayerOnlyAt(g, p.row, p.col)
    ensures var r := DoPlayerMove(g, rows, cols, p, nextRow, nextCol);
      PlayerOnlyAt(r.grid, r.player.row, r.player.col) && r.player.treasure >= p.treasure
  {
    var r := DoPlayerMove(g, rows, cols, p, nextRow, nextCol);
    if r.status != Blocked {
      forall i, j | 0 <= i < |r.grid| && 0 <= j < |r.grid[i]| && r.grid[i][j] == PlayerTile
        ensures i == nextRow && j == nextCol
      {
      }
    }
  }

  /**
   A key press moves the player by at most one cell; any key other than `w`, `a`, `s`, `d`
   aims at the player's own cell, which holds the player tile, so the move is refused.
   */
  lemma KeyMovesAtMostOneCell(g: Grid, rows: int, cols: int, p: Player, key: char)
    requires IsGrid(g, rows, cols) && PlayerOnlyAt(g, p.row, p.col)
    ensures var (nr, nc) := Direction.GetDirection(key, p.row, p.col);
      var r := DoPlayerMove(g, rows, cols, p, nr, nc);
      && Direction.Abs(r.player.row - p.row) + Direction.Abs(r.player.col - p.col) <= 1
      && (key !in {'w', 'a', 's', 'd'} ==> r.status == Blocked)
  {
  }

  /** The bound check as written: it compares against the dimensions themselves. */
  predicate TargetAdmittedAsWritten(rows: int, cols: int, nextRow: int, nextCol: int) {
    !(nextCol > cols || nextCol < 0) && !(nextRow > rows || nextRow < 0)
  }

  /**
   The move as written: a target the bound check admits but the map lacks is read outside the
   map (`None`); every other target behaves as `DoPlayerMove`.
   */
  function DoPlayerMoveAsWritten(g: Grid, rows: int, cols: int, p: Player, nextRow: int, nextCol: int): (r: Option<Outcome>)
    requires IsGrid(g, rows, cols) && InBounds(rows, cols, p.row, p.col)
    ensures r.None? <==> TargetAdmittedAsWritten(rows, cols, nextRow, nextCol) && !InBounds(rows, cols, nextRow, nextCol)
  {
    if !TargetAdmittedAsWritten(rows, cols, nextRow, nextCol) then Some(Outcome(g, p, Blocked))
    else if !InBounds(rows, cols, nextRow, nextCol) then None
    else Some(DoPlayerMove(g, rows, cols, p, nextRow, nextCol))
  }

  /** The as-written check admits exactly the map's cells plus row `rows` and column `cols`. */
  lemma AsWrittenAdmitsEdge(rows: int, cols: int, nextRow: int, nextCol: int)
    ensures InBounds(rows, cols, nextRow, nextCol) ==> TargetAdmittedAsWritten(rows, cols, nextRow, nextCol)
    ensures TargetAdmittedAsWritten(rows, cols, nextRow, nextCol) && !InBounds(rows, cols, nextRow, nextCol)
      ==> nextRow == rows || nextCol == cols
  {
  }

  /** On a 1 x 1 map, pressing `d` aims at column 1: the as-written move reads past the map. */
  lemma AsWrittenReadsPastEdge()
    ensures DoPlayerMoveAsWritten(["o"], 1, 1, Player(0, 0, 0), 0, 1).None?
    ensures DoPlayerMove(["o"], 1, 1, Player(0, 0, 0), 0, 1).status == Blocked
  {
  }
}
