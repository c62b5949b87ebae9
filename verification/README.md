# Dungeon crawler grid logic, modelled in Dafny

This project models the grid logic of a small turn-based dungeon crawler. The map is a
`rows × cols` grid of tile characters: `-` open floor, `o` the player, `+` pillar, `$` treasure,
`@` amulet, `M` monster, `?` door, `!` exit. The player is a record `(row, col, treasure)`.
The model covers five operations:

- loading a level: validate the dimensions, the start cell and the tiles, then stamp the player in;
- translating a movement key into the next cell;
- doubling the map by tiling it 2 × 2, with the player kept only once;
- one player move, with its status code 0–5;
- one monster attack: four ray scans (up, down, right, left) from the player's cell.

Every operation is a pure function or a method over immutable values (`seq<seq<char>>` for the
map). Pointers that may be null become `Option`. Memory the source would read or write outside
the map becomes `None` in the as-written move and scans. For the loader, `AcceptedAsWritten`
gives the levels the code goes on to stamp. `Level.AsWrittenAdmitsEdge` shows that the levels it
admits beyond the corrected check are the ones whose start, and so whose stamp, lies outside the map.

Files and modules:

- `dungeon.dfy`, module `Dungeon`: tiles, `Grid`, `Player`, `Option`, and the map invariant
  `PlayerOnlyAt` (the player tile appears exactly once, at the player's coordinates).
- `level.dfy`, module `Level`: `LoadLevel`, a method whose nested loops follow the source's read loop.
- `direction.dfy`, module `Direction`: `GetDirection`.
- `resize.dfy`, module `Resize`: `Tiled`, a cell-by-cell reference definition of the doubled map.
  `ResizeMap` simulates the source's loop, which rewrites the old map in place, and is proved to
  compute `Tiled`.
- `move.dfy`, module `Move`: `DoPlayerMove` and its status codes.
- `monster.dfy`, module `Monster`: the ray scans. A ray is read off the map as a line, meaning
  its tiles from the player's cell to the edge. `Advance` is the scan loop, written as a recursive
  function over the index. `Pursued` is a declarative reference for its result.

Three behaviours of the code that the model keeps:

- A literal `o` in the level body is rejected. logic.cpp:99-102 writes `-` for it, and the tile
  test at logic.cpp:103-111 then refuses the level.
- Every monster in front of the first pillar advances one cell: the scan loop at logic.cpp:338-346
  has no `break` after moving a monster.
- The character-count pre-pass (logic.cpp:37-50) becomes an error path:
  a tile count other than `rows * cols` gives no map.

The main model makes four corrections to the code: three out-of-map accesses, and one in-bounds
bounce-back, in which a monster already on the player's cell is moved off it again by the next
scan. Each correction keeps an as-written twin that models the code as it stands. See "## Findings".

## Model

| member | source | states |
|---|---|---|
| Level.LoadLevel | logic.cpp:47-121 | (Corrected: strict start bound; see `AcceptedAsWritten` for the code as written.) A map is returned iff all of these hold: the tile count equals `rows*cols`, both dimensions are positive, the start cell lies inside the map, every tile is one of `- $ @ M + ? !` (a literal `o` is refused), and exactly one of door and exit occurs. On success every cell holds its row-major tile, except the start cell, which holds the player; the player tile appears exactly once; the caller's player record gets the start cell as its position and keeps its treasure. |
| Level.AcceptedAsWritten | logic.cpp:47-119 | The levels the loader as written goes on to stamp. These are the tile count, the `>`-based start check, positive dimensions, level tiles only and exactly one of door and exit. |
| Level.AsWrittenAdmitsEdge | logic.cpp:66-69 | The as-written start check accepts every level the loader should accept. The only extra levels it admits start on row `rows` or column `cols`. |
| Level.AsWrittenStampsOutsideMap | logic.cpp:119 | The as-written loader accepts a 1 × 1 level holding `?` with start (1, 0), a cell the map does not have. |
| Direction.GetDirection | logic.cpp:132-150 | `w`/`s` move one row up/down and leave the column alone. `a`/`d` move one column left/right and leave the row alone. The step has length 1 exactly for these four keys; every other key leaves the cell unchanged. |
| Direction.OppositeKeysCancel | logic.cpp:134-149 | `w` then `s`, `s` then `w`, `a` then `d`, and `d` then `a` each return to the starting cell. |
| Resize.Tiled | logic.cpp:211-229 | The doubled map has exactly `2*rows` rows of `2*cols` tiles. |
| Resize.TiledQuadrants | logic.cpp:221-232 | The top-left quadrant of the doubled map equals the old map. The other three quadrants are copies of it in which the player tile has become open floor. |
| Resize.TiledKeepsPlayerUnique | logic.cpp:225-229 | If the old map holds the player tile exactly once, at (r, c), so does the doubled map. |
| Resize.ResizeMap | logic.cpp:200-235 | No map, or a zero dimension, gives no map and leaves both dimensions unchanged. Otherwise both dimensions are doubled. The map produced by the loop, which rewrites the old map in place in row-major order, equals `Tiled`. |
| Move.Code | logic.cpp:257-312 | Statuses are coded 0–5, and code 0 means exactly "blocked". |
| Move.CodeInjective | logic.cpp:257-312 | Distinct statuses have distinct codes. |
| Move.DoPlayerMove | logic.cpp:253-313 | (Corrected: strict bound; see `DoPlayerMoveAsWritten` for the code as written.) Blocked means the map and the player are unchanged, treasure included. Any other status means the target was in the map, the player stands there, the target holds the player tile, the old cell is open floor, and no other cell changed. Treasure grows by exactly 1 iff the status is "treasure". Each moving status holds exactly when the target holds `-`, `$`, `@`, `?`, or `!` with treasure > 0. |
| Move.Step | logic.cpp:269-272 | The move block shared by the moving statuses. The player record becomes the target cell with the given treasure. The target holds the player tile, the old cell (when different) holds open floor, and every other cell and the map's shape are unchanged. |
| Move.MoveKeepsPlayerUnique | logic.cpp:267-309 | A move keeps the player tile unique and at the player's coordinates, and never lowers the treasure. |
| Move.KeyMovesAtMostOneCell | logic.cpp:132-150 | After a key press and a move, the player is at most one cell from where it was. A key other than `w a s d` aims at the player's own cell, and the move is blocked. |
| Move.DoPlayerMoveAsWritten | logic.cpp:255-263 | The as-written move reads outside the map exactly when the target passes the `>` bound check but is not a cell of the map. |
| Move.AsWrittenAdmitsEdge | logic.cpp:255-262 | The as-written bound check admits every cell of the map. The only extra targets it admits lie on row `rows` or column `cols`. |
| Move.AsWrittenReadsPastEdge | logic.cpp:255-263 | On the 1 × 1 map `o`, target (0, 1) is read outside the map as written, and the corrected move blocks it. |
| Monster.Block | logic.cpp:334-337 | The scan stop is the first pillar at or after the start index, or the end of the ray when there is no pillar. |
| Monster.Advance | logic.cpp:332-347 | The scan loop from index `t`: it stops at a pillar, moves each monster one cell toward the player and goes on. The line keeps its length. The capture flag ends up true iff it was already true, or the loop started at index 1 and index 1 held a monster. |
| Monster.AdvanceShifts | logic.cpp:332-347 | From index `t` on, the scan loop leaves the cells before `t-1`, and those from the first pillar on, untouched. Each cell between gains the monster from the next cell, or loses its own monster. A capture is recorded only when index 1 holds a monster. |
| Monster.AdvanceIsPursued | logic.cpp:332-347 | The whole scan loop computes `Pursued`: every monster in front of the first pillar steps one cell toward the player. The capture flag is set iff the cell next to the player held a monster. |
| Monster.Scan | logic.cpp:332-347 | (Corrected: a monster on the player's cell stays; see `ScanAsWritten` for the code as written.) One scan changes only cells on its ray. The ray's new line is `Pursued` of the old one, or the old one if a pillar stands on the player's cell. The scan reports a capture iff the adjacent cell held a monster. After a capture a monster stands on the player's cell; otherwise that cell is unchanged. |
| Monster.ScanMovesEachMonsterOneStep | logic.cpp:334-346 | Nothing at or beyond the first pillar changes. Every monster seen before it now stands one cell nearer the player. A non-monster cell with no monster behind it keeps its tile. |
| Monster.MonsterAttack | logic.cpp:329-400 | (Corrected: a monster on the player's cell stays, and nothing is written outside the map; see `MonsterAttackAsWritten` for the code as written.) The result is true iff the player's cell is not a pillar and, along some ray, the cell next to the player holds a monster. When the player's cell is not a pillar, every ray past the player's cell ends up `Pursued`: each monster in front of the first pillar has stepped one cell toward the player. A pillar on the player's cell leaves the map unchanged and gives false. Only cells in the player's row or column change, and no player tile is created. After a capture a monster stands on the player's cell; with no capture that cell is unchanged. |
| Monster.AttackKeepsPlayerUnlessCaught | logic.cpp:329-400 | With no capture, the player tile is still unique and in place. A capture happens iff no player tile is left on the map. |
| Monster.ScanAsWritten | logic.cpp:349-364 | A scan as written fails (writes outside the map) exactly when a monster stands on the player's cell and the cell behind the player, against the scan direction, is off the map. When it completes, it changes only cells on its ray and that cell behind the player. |
| Monster.MonsterAttackAsWritten | logic.cpp:329-400 | The as-written attack, when it completes, keeps the map's shape and changes only cells in the player's row or column. |
| Monster.ScanAsWrittenAgrees | logic.cpp:338-346 | While no monster stands on the player's cell, a scan as written equals the corrected scan. |
| Monster.AttackAsWrittenAgrees | logic.cpp:329-400 | If no monster stands on the player's cell and the corrected attack reports no capture, the as-written attack gives the same map and result. |
| Monster.CaptureUndoneAsWritten | logic.cpp:355-358 | On the 3 × 1 map `M o -` with the player in row 1, the as-written attack reports a capture but leaves `M - -`: no monster on the player. The corrected attack leaves `- M -`. |
| Monster.WritesOutsideMapAsWritten | logic.cpp:372-375 | On the 2 × 1 map `o M` with the player at (0, 0), the as-written attack writes outside the map. The corrected attack leaves `M -` and reports the capture. |

## Left out

- File I/O in `loadLevel` is not modelled: opening the file, the two full reads and the stream
  failure checks (logic.cpp:22-64). The input is taken as the integers and tile characters those
  reads would produce. The reference parameters the source overwrites even when it fails are not modelled.
- The pre-pass counts every character other than `' '` on every line it reads, while the tile reads
  skip all whitespace. The model takes the tiles as the non-whitespace characters and leaves out
  the files on which the two differ. These are bodies separated by tabs, and files with CRLF
  line endings, whose `'\r'` characters are counted. Such a file can go either way. It can fail
  the count although all its tiles are there, where the model, given the tiles, returns a map.
  It can also pass the count with too few tiles. The failed reads then leave the last tile read
  in the remaining cells (logic.cpp:83, 90), so the source returns a map where the model returns
  none.
- `deleteMap` and all `new`/`delete` bookkeeping (logic.cpp:77-81, 175-187, 215-219, 233) are left
  out: memory management with no behaviour beyond freeing storage.
- The commented-out `createMap` (logic.cpp:161-166), console output and any game loop are left out.
- `logic.h` is not part of this model. The `Player` fields come from their uses at logic.cpp:34 and
  logic.cpp:277. The status values 0–5 come from the returns in `doPlayerMove`.
- Integers are unbounded. `maxRow * maxCol`, the doubling at logic.cpp:211-212 and `treasure++`
  can overflow a C++ `int`, and the model does not wrap them.

## Findings

| source | as written | input that shows it | evidently intended | confidence | as-written member | corrected member |
|---|---|---|---|---|---|---|
| logic.cpp:66 | The start check uses `player.row > maxRow`, so a start on row `maxRow` (or column `maxCol`) passes. logic.cpp:119 then writes outside the map. | 1 × 1 level `?`, start (1, 0) | reject a start outside `[0,rows) × [0,cols)` | not executed | Level.AsWrittenStampsOutsideMap | Level.LoadLevel |
| logic.cpp:255-263 | The move check uses `nextCol > maxCol` and `nextRow > maxRow`, so the target at index == dimension is read outside the map. | 1 × 1 map `o`, player (0, 0), target (0, 1) | block any target outside the map | not executed | Move.AsWrittenReadsPastEdge | Move.DoPlayerMove |
| logic.cpp:355-358 | Each scan starts at the player's own cell. A monster the up scan moved onto the player is moved off again by the down scan (logic.cpp:389-392 does the same for the left scan). | 3 × 1 map `M o -`, player (1, 0) | the capturing monster stays on the player | not executed | Monster.CaptureUndoneAsWritten | Monster.MonsterAttack |
| logic.cpp:372-375 | The right scan moves a monster standing on the player to column `player.col - 1`, which is -1 when the player is in column 0 (logic.cpp:341, 358 and 392 likewise at the other edges). | 2 × 1 map `o M`, player (0, 0) | no write outside the map | not executed | Monster.WritesOutsideMapAsWritten | Monster.MonsterAttack |
