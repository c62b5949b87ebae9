/** Translating a movement key into the player's next cell. */
module Direction {

  function Abs(x: int): int {
    if x < 0 then -x else x
  }

  /**
   The cell one key press leads to from (nextRow, nextCol): `w` and `s` go up and down a row,
   `a` and `d` left and right a column, and every other key stays put.
   */
  function GetDirection(input: char, nextRow: int, nextCol: int): (r: (int, int))
    ensures Abs(r.0 - nextRow) + Abs(r.1 - nextCol) == (if input in {'w', 'a', 's', 'd'} then 1 else 0)
    ensures input == 'w' || input == 's' ==> r.1 == nextCol
    ensures input == 'a' || input == 'd' ==> r.0 == nextRow
    ensures input == 'w' ==> r.0 < nextRow
    ensures input == 's' ==> r.0 > nextRow
    ensures input == 'a' ==> r.1 < nextCol
    ensures input == 'd' ==> r.1 > nextCol
  {
    if input == 'w' then (nextRow - 1, nextCol)
    else if input == 'a' then (nextRow, nextCol - 1)
    else if input == 's' then (nextRow + 1, nextCol)
    else if input == 'd' then (nextRow, nextCol + 1)
    else (nextRow, nextCol)
  }

  /** Opposite keys undo each other. */
  lemma OppositeKeysCancel(row: int, col: int)
    ensures var (r, c) := GetDirection('w', row, col); GetDirection('s', r, c) == (row, col)
    ensures var (r, c) := GetDirection('s', row, col); GetDirection('w', r, c) == (row, col)
    ensures var (r, c) := GetDirection('a', row, col); GetDirection('d', r, c) == (row, col)
    ensures var (r, c) := GetDirection('d', row, col); GetDirection('a', r, c) == (row, col)
  {
  }
}
