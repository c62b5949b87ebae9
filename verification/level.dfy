/**
 Loading a level. The file is abstracted to what the two reading passes obtain from it:
 the dimensions, the start position and the tile characters of the body in row-major order.
 */
module Level {
  import opened Dungeon

  /** A successfully loaded level: the grid with the player stamped in, and the player. */
  datatype Loaded = Loaded(grid: Grid, player: Player)

  /**
   When the loader produces a grid: positive dimensions, a start cell inside the grid, exactly
   `rows * cols` tiles, every tile from the level alphabet, and a door or an exit but not both.
   */
  predicate Acceptable(rows: int, cols: int, startRow: int, startCol: int, tiles: seq<char>) {
    && rows > 0 && cols > 0
    && 0 <= startRow < rows && 0 <= startCol < cols
    && |tiles| == rows * cols
    && (forall n :: 0 <= n < |tiles| ==> IsLevelTile(tiles[n]))
    && ((Door in tiles) != (Exit in tiles))
  }

  lemma MulMonotone(a: int, b: int, c: int)
    requires 0 <= a <= b && 0 <= c
    ensures a * c <= b * c
  {
  }

  lemma RowMajorBound(rows: int, cols: int, i: int, k: int)
    requires 0 <= i < rows && 0 <= k < cols
    ensures 0 <= i * cols + k < rows * cols
  {
    MulMonotone(0, i, cols);
    MulMonotone(i + 1, rows, cols);
    assert (i + 1) * cols == i * cols + cols;
  }

  /** The tile of cell (i, k) in the row-major tile sequence. */
  function TileAt(tiles: seq<char>, rows: int, cols: int, i: int, k: int): char
    requires |tiles| == rows * cols && 0 <= i < rows && 0 <= k < cols
  {
    RowMajorBound(rows, cols, i, k);
    tiles[i * cols + k]
  }

  /**
   The validation and stamping of the loader. The grid is read row by row; the first tile outside
   the level alphabet (the player tile included) rejects the level. Only the position of the
   caller's `player` is set; its treasure is kept.
   */
  method LoadLevel(rows: int, cols: int, startRow: int, startCol: int, tiles: seq<char>, player: Player)
    returns (r: Option<Loaded>)
    ensures r.None? <==> !Acceptable(rows, cols, startRow, startCol, tiles)
    ensures r.Some? ==> IsGrid(r.value.grid, rows, cols)
    ensures r.Some? ==> r.value.player == Player(startRow, startCol, player.treasure)
    ensures r.Some? ==> PlayerOnlyAt(r.value.grid, startRow, startCol)
    ensures r.Some? ==> forall i, k :: 0 <= i < rows && 0 <= k < cols && (i != startRow || k != startCol) ==>
      r.value.grid[i][k] == TileAt(tiles, rows, cols, i, k)
  {
    // the character-count pre-pass
    if |tiles| != rows * cols {
      return None;
    }
    if startRow >= rows || startCol >= cols || startRow < 0 || startCol < 0 {
      return None;
    }
    if rows <= 0 || cols <= 0 {
      return None;
    }
    var grid: Grid := [];
    var door, exit := false, false;
    var next := 0;
    var j := 0;
    while j < rows
      invariant 0 <= j <= rows
      invariant next == j * cols
      invariant |grid| == j && forall i :: 0 <= i < j ==> |grid[i]| == cols
      invariant forall i, k :: 0 <= i < j && 0 <= k < cols ==> grid[i][k] == TileAt(tiles, rows, cols, i, k)
      invariant 0 <= next <= |tiles|
      invariant forall n :: 0 <= n < next ==> IsLevelTile(tiles[n])
      invariant door == (Door in tiles[..next]) && exit == (Exit in tiles[..next])
    {
      var row: seq<char> := [];
      var k := 0;
      while k < cols
        invariant 0 <= k <= cols
        invariant next == j * cols + k
        invariant |row| == k
        invariant forall m :: 0 <= m < k ==> row[m] == TileAt(tiles, rows, cols, j, m)
        invariant 0 <= next <= |tiles|
        invariant forall n :: 0 <= n < next ==> IsLevelTile(tiles[n])
        invariant door == (Door in tiles[..next]) && exit == (Exit in tiles[..next])
      {
        RowMajorBound(rows, cols, j, k);
        var tile := tiles[next];
        if tile == Door {
          door := true;
        }
        if tile == Exit {
          exit := true;
        }
        if !IsLevelTile(tile) {
          return None;
        }
        assert tiles[..next + 1] == tiles[..next] + [tile];
        row := row + [tile];
        next := next + 1;
        k := k + 1;
      }
      grid := grid + [row];
      j := j + 1;
    }
    assert tiles[..next] == tiles;
    if door == exit {
      return None;
    }
    forall i, k | 0 <= i < rows && 0 <= k < cols
      ensures grid[i][k] != PlayerTile
    {
      RowMajorBound(rows, cols, i, k);
      assert IsLevelTile(tiles[i * cols + k]);
    }
    grid := Set(grid, startRow, startCol, PlayerTile);
    return Some(Loaded(grid, player.(row := startRow, col := startCol)));
  }

  /** The start-position check as written: it compares against the dimensions themselves. */
  predicate StartAdmittedAsWritten(rows: int, cols: int, startRow: int, startCol: int) {
    !(startRow > rows || startCol > cols || startRow < 0 || startCol < 0)
  }

  /** The levels the loader as written goes on to stamp. */
  predicate AcceptedAsWritten(rows: int, cols: int, startRow: int, startCol: int, tiles: seq<char>) {
    && |tiles| == rows * cols
    && StartAdmittedAsWritten(rows, cols, startRow, startCol)
    && rows > 0 && cols > 0
    && (forall n :: 0 <= n < |tiles| ==> IsLevelTile(tiles[n]))
    && ((Door in tiles) != (Exit in tiles))
  }

  /**
   The as-written check accepts every acceptable level, and the only extra levels it lets through
   start on the row just below the grid or the column just right of it, where no cell exists.
   */
  lemma AsWrittenAdmitsEdge(rows: int, cols: int, startRow: int, startCol: int, tiles: seq<char>)
    ensures Acceptable(rows, cols, startRow, startCol, tiles) ==> AcceptedAsWritten(rows, cols, startRow, startCol, tiles)
    ensures AcceptedAsWritten(rows, cols, startRow, startCol, tiles) && !Acceptable(rows, cols, startRow, startCol, tiles)
      ==> startRow == rows || startCol == cols
  {
  }

  /** A 1 x 1 level holding a door, started at row 1: accepted as written, with no cell to stamp. */
  lemma AsWrittenStampsOutsideMap()
    ensures AcceptedAsWritten(1, 1, 1, 0, "?")
    ensures !InBounds(1, 1, 1, 0)
  {
    assert "?"[0] == Door;
  }
}
