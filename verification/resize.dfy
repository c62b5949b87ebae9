/** Doubling the map: the old map is tiled 2 x 2 into the new one, the player kept only once. */
module Resize {
  import opened Dungeon

  /** A tile as it appears in a copy of the map: the player becomes open floor. */
  function Scrub(t: char): char {
    if t == PlayerTile then Open else t
  }

  /** On a doubled range, `%` folds the upper half onto the lower one. */
  lemma ModDoubled(x: int, n: int)
    requires 0 <= x < 2 * n
    ensures x % n == (if x < n then x else x - n)
  {
    if x < n {
      assert x == n * 0 + x;
    } else {
      assert x == n * 1 + (x - n);
    }
  }

  /**
   The tile of cell (r, c) of the doubled map: the tile of old cell (r mod rows, c mod cols),
   except that the player becomes open floor outside the top-left quadrant.
   */
  function CopiedTile(g: Grid, rows: int, cols: int, r: int, c: int): char
    requires rows > 0 && cols > 0 && IsGrid(g, rows, cols) && 0 <= r && 0 <= c
  {
    var t := g[r % rows][c % cols];
    if (r >= rows || c >= cols) && t == PlayerTile then Open else t
  }

  /** The doubled map, cell by cell. */
  function Tiled(g: Grid, rows: int, cols: int): (h: Grid)
    requires rows > 0 && cols > 0 && IsGrid(g, rows, cols)
    ensures IsGrid(h, 2 * rows, 2 * cols)
  {
    seq(2 * rows, r requires 0 <= r < 2 * rows =>
      seq(2 * cols, c requires 0 <= c < 2 * cols => CopiedTile(g, rows, cols, r, c)))
  }

  /**
   The top-left quadrant of the doubled map is the old map; the quadrants to the right, below
   and diagonally below are copies of it with the player scrubbed out.
   */
  lemma TiledQuadrants(g: Grid, rows: int, cols: int)
    requires rows > 0 && cols > 0 && IsGrid(g, rows, cols)
    ensures var h := Tiled(g, rows, cols);
      && (forall r, c :: 0 <= r < rows && 0 <= c < cols ==> h[r][c] == g[r][c])
      && (forall r, c :: 0 <= r < rows && cols <= c < 2 * cols ==> h[r][c] == Scrub(g[r][c - cols]))
      && (forall r, c :: rows <= r < 2 * rows && 0 <= c < cols ==> h[r][c] == Scrub(g[r - rows][c]))
      && (forall r, c :: rows <= r < 2 * rows && cols <= c < 2 * cols ==> h[r][c] == Scrub(g[r - rows][c - cols]))
  {
    forall r, c {:trigger CopiedTile(g, rows, cols, r, c)} | 0 <= r < 2 * rows && 0 <= c < 2 * cols
      ensures CopiedTile(g, rows, cols, r, c) == (if r < rows && c < cols then g[r][c]
                          else Scrub(g[if r < rows then r else r - rows][if c < cols then c else c - cols]))
    {
      ModDoubled(r, rows);
      ModDoubled(c, cols);
    }
  }

  /** A map holding the player once holds it once after doubling, at the same coordinates. */
  lemma TiledKeepsPlayerUnique(g: Grid, rows: int, cols: int, pr: int, pc: int)
    requires rows > 0 && cols > 0 && IsGrid(g, rows, cols) && PlayerOnlyAt(g, pr, pc)
    ensures PlayerOnlyAt(Tiled(g, rows, cols), pr, pc)
  {
    TiledQuadrants(g, rows, cols);
  }

  /**
   The resize as the game performs it: an absent map or a zero dimension gives no map and leaves
   the dimensions alone; otherwise the new map is filled in row-major order while the old map is
   rewritten in place, each player tile about to be copied outside the top-left quadrant being
   replaced by open floor first. The result is `Tiled`: the rewrite only ever touches a cell after
   its own top-left copy has been made.
   */
  method ResizeMap(grid: Option<Grid>, maxRow: int, maxCol: int)
    returns (newMap: Option<Grid>, newRow: int, newCol: int)
    requires grid.Some? ==> IsGrid(grid.value, maxRow, maxCol)
    ensures grid.None? || maxRow == 0 || maxCol == 0 ==>
      newMap.None? && newRow == maxRow && newCol == maxCol
    ensures grid.Some? && maxRow != 0 && maxCol != 0 ==>
      && maxRow > 0 && maxCol > 0
      && newRow == 2 * maxRow && newCol == 2 * maxCol
      && newMap == Some(Tiled(grid.value, maxRow, maxCol))
  {
    if grid.None? || maxRow == 0 || maxCol == 0 {
      return None, maxRow, maxCol;
    }
    var src := grid.value;
    assert |src[0]| == maxCol;
    var oldRow, oldCol := maxRow, maxCol;
    newRow, newCol := maxRow * 2, maxCol * 2;
    var m := src;
    var done: Grid := [];
    var r := 0;
    while r < newRow
      invariant 0 <= r <= newRow
      invariant IsGrid(m, oldRow, oldCol)
      invariant forall i, j :: 0 <= i < oldRow && 0 <= j < oldCol ==>
        m[i][j] == src[i][j] || (m[i][j] == Open && src[i][j] == PlayerTile)
      invariant forall i, j :: r <= i < oldRow && 0 <= j < oldCol ==> m[i][j] == src[i][j]
      invariant |done| == r
      invariant forall i :: 0 <= i < r ==> done[i] == Tiled(src, oldRow, oldCol)[i]
    {
      var row: seq<char> := [];
      var c := 0;
      while c < newCol
        invariant 0 <= c <= newCol
        invariant IsGrid(m, oldRow, oldCol)
        invariant forall i, j :: 0 <= i < oldRow && 0 <= j < oldCol ==>
          m[i][j] == src[i][j] || (m[i][j] == Open && src[i][j] == PlayerTile)
        invariant forall i, j :: r < i < oldRow && 0 <= j < oldCol ==> m[i][j] == src[i][j]
        invariant r < oldRow ==> forall j :: c <= j < oldCol ==> m[r][j] == src[r][j]
        invariant |row| == c
        invariant forall j :: 0 <= j < c ==> row[j] == CopiedTile(src, oldRow, oldCol, r, j)
      {
        var i, j := r % oldRow, c % oldCol;
        ModDoubled(r, oldRow);
        ModDoubled(c, oldCol);
        if (r >= oldRow || c >= oldCol) && m[i][j] == PlayerTile {
          m := Set(m, i, j, Open);
        }
        row := row + [m[i][j]];
        c := c + 1;
      }
      assert row == Tiled(src, oldRow, oldCol)[r];
      done := done + [row];
      r := r + 1;
    }
    assert done == Tiled(src, oldRow, oldCol);
    newMap := Some(done);
  }
}
