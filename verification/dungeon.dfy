/** Tiles, the map and the player record shared by every operation of the dungeon game. */
module Dungeon {

  // Tile characters of a dungeon map.
  const Open: char := '-'
  const PlayerTile: char := 'o'
  const Pillar: char := '+'
  const Treasure: char := '$'
  const Amulet: char := '@'
  const MonsterTile: char := 'M'
  const Door: char := '?'
  const Exit: char := '!'

  /** The tiles a level file may contain. The player tile is not one of them. */
  predicate IsLevelTile(t: char) {
    t == Open || t == Treasure || t == Amulet || t == MonsterTile || t == Pillar || t == Door || t == Exit
  }

  /** Stands in for a pointer that may be null. */
  datatype Option<T> = None | Some(value: T)

  /** The player: position on the map and treasure collected so far. */
  datatype Player = Player(row: int, col: int, treasure: int)

  /** A map, row by row. */
  type Grid = seq<seq<char>>

  /** `g` has `rows` rows of `cols` tiles each. */
  predicate IsGrid(g: Grid, rows: int, cols: int) {
    |g| == rows && forall i :: 0 <= i < |g| ==> |g[i]| == cols
  }

  predicate InBounds(rows: int, cols: int, r: int, c: int) {
    0 <= r < rows && 0 <= c < cols
  }

  /** The map with tile `t` written at (r, c). */
  function Set(g: Grid, r: int, c: int, t: char): (h: Grid)
    requires 0 <= r < |g| && 0 <= c < |g[r]|
    ensures |h| == |g| && forall i :: 0 <= i < |g| ==> |h[i]| == |g[i]|
    ensures h[r][c] == t
    ensures forall i, j :: 0 <= i < |g| && 0 <= j < |g[i]| && (i != r || j != c) ==> h[i][j] == g[i][j]
  {
    g[r := g[r][c := t]]
  }

  /** The map invariant of a game in progress: the player tile is at (r, c) and nowhere else. */
  predicate PlayerOnlyAt(g: Grid, r: int, c: int) {
    && 0 <= r < |g| && 0 <= c < |g[r]| && g[r][c] == PlayerTile
    && forall i, j :: 0 <= i < |g| && 0 <= j < |g[i]| && g[i][j] == PlayerTile ==> i == r && j == c
  }
}
