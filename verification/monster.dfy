/**
 Monster pursuit. Each of the four scans follows one ray of cells outward from the player, stops
 at the first pillar, and moves every monster it meets one cell toward the player.

 A ray is handled through its line: the sequence of its tiles from the player's cell (index 0)
 to the map edge. `Line` reads it off the map and `PutLine` writes it back.
 */
module Monster {
  import opened Dungeon

  /** The four scans, in the order the game runs them. */
  datatype Ray = Up | Down | Right | Left

  function Opposite(d: Ray): Ray {
    match d
    case Up => Down
    case Down => Up
    case Right => Left
    case Left => Right
  }

  /** The cell `t` steps from the player along `d`. */
  function RayCell(p: Player, d: Ray, t: int): (int, int) {
    match d
    case Up => (p.row - t, p.col)
    case Down => (p.row + t, p.col)
    case Right => (p.row, p.col + t)
    case Left => (p.row, p.col - t)
  }

  /** The number of cells from the player's cell, inclusive, to the map edge along `d`. */
  function RayLength(rows: int, cols: int, p: Player, d: Ray): int {
    match d
    case Up => p.row + 1
    case Down => rows - p.row
    case Right => cols - p.col
    case Left => p.col + 1
  }

  /** How many steps along `d` the cell (r, c) lies from the player, or -1 when it is off the ray. */
  function RayIndex(p: Player, d: Ray, r: int, c: int): int {
    match d
    case Up => if c == p.col && r <= p.row then p.row - r else -1
    case Down => if c == p.col && r >= p.row then r - p.row else -1
    case Right => if r == p.row && c >= p.col then c - p.col else -1
    case Left => if r == p.row && c <= p.col then p.col - c else -1
  }

  /** The ray's cells are exactly the in-bounds cells with a ray index, each at its own index. */
  lemma RayCellIndex(rows: int, cols: int, p: Player, d: Ray, t: int)
    requires InBounds(rows, cols, p.row, p.col) && 0 <= t < RayLength(rows, cols, p, d)
    ensures InBounds(rows, cols, RayCell(p, d, t).0, RayCell(p, d, t).1)
    ensures RayIndex(p, d, RayCell(p, d, t).0, RayCell(p, d, t).1) == t
  {
  }

  /** Every in-bounds cell with a ray index is the ray cell at that index. */
  lemma RayIndexCell(rows: int, cols: int, p: Player, d: Ray, r: int, c: int)
    requires InBounds(rows, cols, p.row, p.col) && InBounds(rows, cols, r, c) && RayIndex(p, d, r, c) >= 0
    ensures RayIndex(p, d, r, c) < RayLength(rows, cols, p, d)
    ensures RayCell(p, d, RayIndex(p, d, r, c)) == (r, c)
  {
  }

  /** The tiles of the ray along `d`, the player's cell first. */
  function Line(g: Grid, rows: int, cols: int, p: Player, d: Ray): (v: seq<char>)
    requires IsGrid(g, rows, cols) && InBounds(rows, cols, p.row, p.col)
    ensures |v| == RayLength(rows, cols, p, d) && |v| >= 1
    ensures v[0] == g[p.row][p.col]
  {
    seq(RayLength(rows, cols, p, d), t requires 0 <= t < RayLength(rows, cols, p, d) =>
      RayCellIndex(rows, cols, p, d, t);
      g[RayCell(p, d, t).0][RayCell(p, d, t).1])
  }

  /** The map with the ray along `d` overwritten by `w`. */
  function PutLine(g: Grid, rows: int, cols: int, p: Player, d: Ray, w: seq<char>): (h: Grid)
    requires IsGrid(g, rows, cols) && InBounds(rows, cols, p.row, p.col)
    requires |w| == RayLength(rows, cols, p, d)
    ensures IsGrid(h, rows, cols)
    ensures forall r, c :: InBounds(rows, cols, r, c) && RayIndex(p, d, r, c) < 0 ==> h[r][c] == g[r][c]
    ensures Line(h, rows, cols, p, d) == w
    ensures h[p.row][p.col] == w[0]
  {
    var h := seq(rows, r requires 0 <= r < rows =>
      seq(cols, c requires 0 <= c < cols =>
        var t := RayIndex(p, d, r, c);
        if t >= 0 then w[t] else g[r][c]));
    assert forall t :: 0 <= t < |w| ==> Line(h, rows, cols, p, d)[t] == w[t] by {
      forall t | 0 <= t < |w|
        ensures Line(h, rows, cols, p, d)[t] == w[t]
      {
        RayCellIndex(rows, cols, p, d, t);
      }
    }
    h
  }

  /** Writing back the ray's own line leaves the map as it was. */
  lemma PutLineOwnLine(g: Grid, rows: int, cols: int, p: Player, d: Ray)
    requires IsGrid(g, rows, cols) && InBounds(rows, cols, p.row, p.col)
    ensures PutLine(g, rows, cols, p, d, Line(g, rows, cols, p, d)) == g
  {
    var v := Line(g, rows, cols, p, d);
    var h := PutLine(g, rows, cols, p, d, v);
    forall i, j | InBounds(rows, cols, i, j)
      ensures h[i][j] == g[i][j]
    {
      if RayIndex(p, d, i, j) >= 0 {
        var t := RayIndex(p, d, i, j);
        RayIndexCell(rows, cols, p, d, i, j);
        assert Line(h, rows, cols, p, d)[t] == h[i][j];
      }
    }
    SameGrid(h, g, rows, cols);
  }

  /** Writing a line that holds the player tile only where the old line did adds no player tile. */
  lemma PutLineAddsNoPlayer(g: Grid, rows: int, cols: int, p: Player, d: Ray, w: seq<char>)
    requires IsGrid(g, rows, cols) && InBounds(rows, cols, p.row, p.col)
    requires |w| == RayLength(rows, cols, p, d)
    requires forall u :: 0 <= u < |w| && w[u] == PlayerTile ==> Line(g, rows, cols, p, d)[u] == PlayerTile
    ensures var h := PutLine(g, rows, cols, p, d, w);
      forall i, j :: InBounds(rows, cols, i, j) && h[i][j] == PlayerTile ==> g[i][j] == PlayerTile
  {
    var h := PutLine(g, rows, cols, p, d, w);
    forall i, j | InBounds(rows, cols, i, j) && h[i][j] == PlayerTile
      ensures g[i][j] == PlayerTile
    {
      if RayIndex(p, d, i, j) >= 0 {
        var t := RayIndex(p, d, i, j);
        RayIndexCell(rows, cols, p, d, i, j);
        assert Line(h, rows, cols, p, d)[t] == h[i][j];
        assert Line(g, rows, cols, p, d)[t] == g[i][j];
      }
    }
  }

  /** The index of the first pillar of `v` at or after `t`, or `|v|` when there is none. */
  function Block(v: seq<char>, t: nat): (b: nat)
    requires t <= |v|
    ensures t <= b <= |v|
    ensures b < |v| ==> v[b] == Pillar
    ensures forall u :: t <= u < b ==> v[u] != Pillar
    decreases |v| - t
  {
    if t == |v| || v[t] == Pillar then t else Block(v, t + 1)
  }

  /**
   The tile at index `u` once the scan that started at index `t` has passed the ray's first
   pillar `b`: a monster from the next cell has stepped in, or a monster seen here has left.
   */
  function Shifted(v: seq<char>, t: nat, b: nat, u: nat): char
    requires u < |v| && b <= |v|
  {
    if u + 1 < b && v[u + 1] == MonsterTile then MonsterTile
    else if t <= u && v[u] == MonsterTile then Open
    else v[u]
  }

  /**
   The line once every monster in front of the first pillar beyond the player's cell has moved
   one cell toward the player, and nothing at or beyond that pillar has changed.
   */
  function Pursued(v: seq<char>): (w: seq<char>)
    requires |v| >= 1
  {
    var b := Block(v, 1);
    seq(|v|, u requires 0 <= u < |v| => if u >= b then v[u] else Shifted(v, 1, b, u))
  }

  /**
   One scan loop from index `t` on: stop at a pillar; move a monster one cell toward the player
   and carry on. `caught` records a monster stepping onto the player's cell.
   */
  function Advance(v: seq<char>, t: nat, caught: bool): (r: (seq<char>, bool))
    requires 1 <= t <= |v|
    ensures |r.0| == |v|
    ensures r.1 == (caught || (t == 1 && 1 < |v| && v[1] == MonsterTile))
    decreases |v| - t
  {
    if t == |v| then (v, caught)
    else if v[t] == Pillar then (v, caught)
    else if v[t] == MonsterTile then Advance(v[t := Open][t - 1 := MonsterTile], t + 1, caught || t - 1 == 0)
    else Advance(v, t + 1, caught)
  }

  /**
   What the loop from `t` leaves behind: the cells before `t - 1` and from the first pillar on
   are untouched, the cells between are `Shifted`, and a capture is recorded only by the step
   from index 1, when that cell holds a monster.
   */
  lemma {:induction false} AdvanceShifts(v: seq<char>, t: nat, caught: bool)
    requires 1 <= t <= |v|
    ensures var w := Advance(v, t, caught).0; var b := Block(v, t);
      && (forall u :: 0 <= u < t - 1 ==> w[u] == v[u])
      && (forall u :: b <= u < |v| ==> w[u] == v[u])
      && (forall u :: t - 1 <= u < b ==> w[u] == Shifted(v, t, b, u))
    ensures Advance(v, t, caught).1 == (caught || (t == 1 && 1 < |v| && v[1] == MonsterTile))
    decreases |v| - t
  {
    if t == |v| || v[t] == Pillar {
    } else {
      var b := Block(v, t);
      assert b == Block(v, t + 1);
      var w := Advance(v, t, caught).0;
      if v[t] == MonsterTile {
        var v2 := v[t := Open][t - 1 := MonsterTile];
        assert w == Advance(v2, t + 1, caught || t - 1 == 0).0;
        AdvanceShifts(v2, t + 1, caught || t - 1 == 0);
        BlockAfterStep(v, t);
        ShiftedAfterStep(v, t, b, w);
      } else {
        assert w == Advance(v, t + 1, caught).0;
        AdvanceShifts(v, t + 1, caught);
        ShiftedAfterSkip(v, t, b, w);
      }
    }
  }

  /**
   A monster at `t` steps to `t - 1`: what the rest of the loop leaves of the stepped line is what
   the loop from `t` leaves of `v`.
   */
  lemma ShiftedAfterStep(v: seq<char>, t: nat, b: nat, w: seq<char>)
    requires 1 <= t < b <= |v| == |w| && v[t] == MonsterTile
    requires var v2 := v[t := Open][t - 1 := MonsterTile];
      && (forall u :: 0 <= u < t ==> w[u] == v2[u])
      && (forall u :: b <= u < |v| ==> w[u] == v2[u])
      && (forall u :: t <= u < b ==> w[u] == Shifted(v2, t + 1, b, u))
    ensures forall u :: 0 <= u < t - 1 ==> w[u] == v[u]
    ensures forall u :: b <= u < |v| ==> w[u] == v[u]
    ensures forall u :: t - 1 <= u < b ==> w[u] == Shifted(v, t, b, u)
  {
  }

  /** A cell without a monster at `t` is passed over. */
  lemma ShiftedAfterSkip(v: seq<char>, t: nat, b: nat, w: seq<char>)
    requires 1 <= t < b <= |v| == |w| && v[t] != MonsterTile
    requires forall u :: 0 <= u < t ==> w[u] == v[u]
    requires forall u :: t <= u < b ==> w[u] == Shifted(v, t + 1, b, u)
    ensures forall u :: t - 1 <= u < b ==> w[u] == Shifted(v, t, b, u)
  {
  }

  /** The step at `t` leaves the cells from `t + 1` on, so it leaves their first pillar. */
  lemma BlockAfterStep(v: seq<char>, t: nat)
    requires 1 <= t < |v|
    ensures Block(v[t := Open][t - 1 := MonsterTile], t + 1) == Block(v, t + 1)
  {
    BlockAgrees(v, v[t := Open][t - 1 := MonsterTile], t + 1);
  }

  /** `Block` depends only on the cells from `t` on. */
  lemma {:induction false} BlockAgrees(v: seq<char>, v2: seq<char>, t: nat)
    requires t <= |v| == |v2|
    requires forall u :: t <= u < |v| ==> v[u] == v2[u]
    ensures Block(v, t) == Block(v2, t)
    decreases |v| - t
  {
    if t < |v| && v[t] != Pillar {
      BlockAgrees(v, v2, t + 1);
    }
  }

  /** The whole scan loop computes `Pursued`, and catches the player iff index 1 held a monster. */
  lemma AdvanceIsPursued(v: seq<char>, caught: bool)
    requires |v| >= 1
    ensures Advance(v, 1, caught).0 == Pursued(v)
    ensures Advance(v, 1, caught).1 == (caught || (1 < |v| && v[1] == MonsterTile))
  {
    AdvanceShifts(v, 1, caught);
  }

  /**
   One scan, with the player's own cell only tested for a pillar: a monster standing there
   has already reached the player and stays. The result flag is a capture during this scan.
   */
  function Scan(g: Grid, rows: int, cols: int, p: Player, d: Ray): (r: (Grid, bool))
    requires IsGrid(g, rows, cols) && InBounds(rows, cols, p.row, p.col)
    ensures IsGrid(r.0, rows, cols)
    ensures forall i, j :: InBounds(rows, cols, i, j) && RayIndex(p, d, i, j) < 0 ==> r.0[i][j] == g[i][j]
    ensures var v := Line(g, rows, cols, p, d);
      Line(r.0, rows, cols, p, d) == if v[0] == Pillar then v else Pursued(v)
    ensures var v := Line(g, rows, cols, p, d);
      r.1 <==> v[0] != Pillar && |v| > 1 && v[1] == MonsterTile
    ensures r.1 ==> r.0[p.row][p.col] == MonsterTile
    ensures !r.1 ==> r.0[p.row][p.col] == g[p.row][p.col]
    ensures forall i, j :: InBounds(rows, cols, i, j) && r.0[i][j] == PlayerTile ==> g[i][j] == PlayerTile
  {
    var v := Line(g, rows, cols, p, d);
    if v[0] == Pillar then (g, false)
    else
      AdvanceIsPursued(v, false);
      var (w, caught) := Advance(v, 1, false);
      PutLineAddsNoPlayer(g, rows, cols, p, d, w);
      (PutLine(g, rows, cols, p, d, w), caught)
  }

  /**
   Along one scan: nothing at or beyond the first pillar changes, and every monster in front of
   it now stands one cell nearer the player.
   */
  lemma ScanMovesEachMonsterOneStep(g: Grid, rows: int, cols: int, p: Player, d: Ray)
    requires IsGrid(g, rows, cols) && InBounds(rows, cols, p.row, p.col)
    requires g[p.row][p.col] != Pillar
    ensures var v := Line(g, rows, cols, p, d);
      var w := Line(Scan(g, rows, cols, p, d).0, rows, cols, p, d);
      var b := Block(v, 1);
      && (forall t :: b <= t < |v| ==> w[t] == v[t])
      && (forall t :: 1 <= t < b && v[t] == MonsterTile ==> w[t - 1] == MonsterTile)
      && (forall t :: 1 <= t < b && v[t] != MonsterTile && (t + 1 == b || v[t + 1] != MonsterTile) ==> w[t] == v[t])
  {
    PursuedMovesEachMonster(Line(g, rows, cols, p, d));
  }

  /** `Pursued` on a line: past the first pillar nothing changes, before it each monster steps in. */
  lemma PursuedMovesEachMonster(v: seq<char>)
    requires |v| >= 1
    ensures var w := Pursued(v); var b := Block(v, 1);
      && (forall t :: b <= t < |v| ==> w[t] == v[t])
      && (forall t :: 1 <= t < b && v[t] == MonsterTile ==> w[t - 1] == MonsterTile)
      && (forall t :: 1 <= t < b && v[t] != MonsterTile && (t + 1 == b || v[t + 1] != MonsterTile) ==> w[t] == v[t])
  {
  }

  /** A monster stands on the cell next to the player along `d`. */
  predicate InSight(g: Grid, rows: int, cols: int, p: Player, d: Ray)
    requires IsGrid(g, rows, cols) && InBounds(rows, cols, p.row, p.col)
  {
    var v := Line(g, rows, cols, p, d);
    |v| > 1 && v[1] == MonsterTile
  }

  /** A map changed only on the ray along `d` keeps the other rays' cells past the player. */
  lemma OtherRayUntouched(g: Grid, h: Grid, rows: int, cols: int, p: Player, d: Ray, e: Ray)
    requires IsGrid(g, rows, cols) && IsGrid(h, rows, cols) && InBounds(rows, cols, p.row, p.col)
    requires d != e
    requires forall i, j :: InBounds(rows, cols, i, j) && RayIndex(p, d, i, j) < 0 ==> h[i][j] == g[i][j]
    ensures Line(h, rows, cols, p, e)[1..] == Line(g, rows, cols, p, e)[1..]
  {
    var v, w := Line(g, rows, cols, p, e), Line(h, rows, cols, p, e);
    forall t | 1 <= t < |v|
      ensures w[t] == v[t]
    {
      RayCellIndex(rows, cols, p, e, t);
    }
  }

  /** `Pursued` past the player's cell depends only on the line past the player's cell. */
  lemma PursuedTail(v: seq<char>, v2: seq<char>)
    requires |v| == |v2| >= 1 && v[1..] == v2[1..]
    ensures Pursued(v)[1..] == Pursued(v2)[1..]
  {
    assert forall u :: 1 <= u < |v| ==> v[u] == v[1..][u - 1] && v2[u] == v2[1..][u - 1];
    BlockAgrees(v, v2, 1);
  }

  /** One scan along `d` leaves the pillar test of the player's cell and the other rays' tails. */
  lemma ScanKeepsOthers(g: Grid, rows: int, cols: int, p: Player, d: Ray)
    requires IsGrid(g, rows, cols) && InBounds(rows, cols, p.row, p.col)
    ensures var h := Scan(g, rows, cols, p, d).0;
      && (h[p.row][p.col] == Pillar <==> g[p.row][p.col] == Pillar)
      && (forall e :: e != d ==> Line(h, rows, cols, p, e)[1..] == Line(g, rows, cols, p, e)[1..])
      && (forall e :: e != d ==> (InSight(h, rows, cols, p, e) <==> InSight(g, rows, cols, p, e)))
  {
    var h := Scan(g, rows, cols, p, d).0;
    forall e | e != d
      ensures Line(h, rows, cols, p, e)[1..] == Line(g, rows, cols, p, e)[1..]
      ensures InSight(h, rows, cols, p, e) <==> InSight(g, rows, cols, p, e)
    {
      OtherRayUntouched(g, h, rows, cols, p, d, e);
      var v, w := Line(g, rows, cols, p, e), Line(h, rows, cols, p, e);
      assert |v| > 1 ==> v[1] == v[1..][0] && w[1] == w[1..][0];
    }
  }

  /** A scan catches the player iff the player's cell is no pillar and a monster is in sight. */
  lemma ScanCatchesInSight(g: Grid, rows: int, cols: int, p: Player, d: Ray)
    requires IsGrid(g, rows, cols) && InBounds(rows, cols, p.row, p.col)
    ensures Scan(g, rows, cols, p, d).1 <==> g[p.row][p.col] != Pillar && InSight(g, rows, cols, p, d)
    ensures g[p.row][p.col] == Pillar ==> Scan(g, rows, cols, p, d).0 == g
  {
  }

  /** Some ray has a monster in sight iff one of the four does. */
  lemma SomeRay(g: Grid, rows: int, cols: int, p: Player)
    requires IsGrid(g, rows, cols) && InBounds(rows, cols, p.row, p.col)
    ensures (exists d :: InSight(g, rows, cols, p, d)) <==>
      InSight(g, rows, cols, p, Up) || InSight(g, rows, cols, p, Down) ||
      InSight(g, rows, cols, p, Right) || InSight(g, rows, cols, p, Left)
  {
    if exists d :: InSight(g, rows, cols, p, d) {
      var d :| InSight(g, rows, cols, p, d);
      match d
      case Up =>
      case Down =>
      case Right =>
      case Left =>
    }
  }

  /**
   What one scan along `d`, from `g` to `h` with flag `c`, is known to do apart from its frame:
   the pillar test of the player's cell is kept, the flag is a monster in sight, the ray is
   `Pursued` past the player's cell, and the other rays past the player's cell are kept.
   */
  ghost predicate ScanStep(g: Grid, h: Grid, c: bool, rows: int, cols: int, p: Player, d: Ray)
    requires IsGrid(g, rows, cols) && InBounds(rows, cols, p.row, p.col)
  {
    && IsGrid(h, rows, cols)
    && (h[p.row][p.col] == Pillar <==> g[p.row][p.col] == Pillar)
    && (c <==> g[p.row][p.col] != Pillar && InSight(g, rows, cols, p, d))
    && (g[p.row][p.col] == Pillar ==> h == g)
    && (g[p.row][p.col] != Pillar ==>
          Line(h, rows, cols, p, d)[1..] == Pursued(Line(g, rows, cols, p, d))[1..])
    && (forall e :: e != d ==> Line(h, rows, cols, p, e)[1..] == Line(g, rows, cols, p, e)[1..])
    && (forall e :: e != d ==> (InSight(h, rows, cols, p, e) <==> InSight(g, rows, cols, p, e)))
  }

  lemma ScanIsStep(g: Grid, rows: int, cols: int, p: Player, d: Ray)
    requires IsGrid(g, rows, cols) && InBounds(rows, cols, p.row, p.col)
    ensures ScanStep(g, Scan(g, rows, cols, p, d).0, Scan(g, rows, cols, p, d).1, rows, cols, p, d)
  {
    ScanKeepsOthers(g, rows, cols, p, d);
    ScanCatchesInSight(g, rows, cols, p, d);
  }

  /**
   The flag of the four scans in order: the player is caught iff the player's cell is not a
   pillar and a monster stands next to it along some ray. A pillar there stops every scan.
   */
  lemma ScansComposeFlag(g: Grid, rows: int, cols: int, p: Player,
                         g1: Grid, c1: bool, g2: Grid, c2: bool, g3: Grid, c3: bool, g4: Grid, c4: bool)
    requires IsGrid(g, rows, cols) && InBounds(rows, cols, p.row, p.col)
    requires ScanStep(g, g1, c1, rows, cols, p, Up)
    requires ScanStep(g1, g2, c2, rows, cols, p, Down)
    requires ScanStep(g2, g3, c3, rows, cols, p, Right)
    requires ScanStep(g3, g4, c4, rows, cols, p, Left)
    ensures (c1 || c2 || c3 || c4) <==>
      g[p.row][p.col] != Pillar && exists d :: InSight(g, rows, cols, p, d)
    ensures g[p.row][p.col] == Pillar ==> g4 == g && !(c1 || c2 || c3 || c4)
  {
    SomeRay(g, rows, cols, p);
  }

  /** Past the player's cell, the four scans in order leave every ray `Pursued`. */
  lemma ScansComposeLines(g: Grid, rows: int, cols: int, p: Player,
                          g1: Grid, c1: bool, g2: Grid, c2: bool, g3: Grid, c3: bool, g4: Grid, c4: bool)
    requires IsGrid(g, rows, cols) && InBounds(rows, cols, p.row, p.col)
    requires ScanStep(g, g1, c1, rows, cols, p, Up)
    requires ScanStep(g1, g2, c2, rows, cols, p, Down)
    requires ScanStep(g2, g3, c3, rows, cols, p, Right)
    requires ScanStep(g3, g4, c4, rows, cols, p, Left)
    requires g[p.row][p.col] != Pillar
    ensures forall d :: Line(g4, rows, cols, p, d)[1..] == Pursued(Line(g, rows, cols, p, d))[1..]
  {
    forall d
      ensures Line(g4, rows, cols, p, d)[1..] == Pursued(Line(g, rows, cols, p, d))[1..]
    {
      match d
      case Up =>
      case Down =>
        PursuedTail(Line(g1, rows, cols, p, Down), Line(g, rows, cols, p, Down));
      case Right =>
        PursuedTail(Line(g2, rows, cols, p, Right), Line(g, rows, cols, p, Right));
      case Left =>
        PursuedTail(Line(g3, rows, cols, p, Left), Line(g, rows, cols, p, Left));
    }
  }

  /**
   What the four scans leave, cell by cell: only the player's row and column change, no player
   tile is created, and the player's cell holds a monster after a capture and is kept otherwise.
   */
  ghost predicate ScansFrame(g: Grid, rows: int, cols: int, p: Player, h: Grid, caught: bool)
    requires IsGrid(g, rows, cols) && InBounds(rows, cols, p.row, p.col)
  {
    && IsGrid(h, rows, cols)
    && (forall i, j :: InBounds(rows, cols, i, j) && i != p.row && j != p.col ==> h[i][j] == g[i][j])
    && (forall i, j :: InBounds(rows, cols, i, j) && h[i][j] == PlayerTile ==> g[i][j] == PlayerTile)
    && (caught ==> h[p.row][p.col] == MonsterTile)
    && (!caught ==> h[p.row][p.col] == g[p.row][p.col])
  }

  /** The four scans in order, each on the map the previous one left, as the attack states them. */
  lemma ScansCompose(g: Grid, rows: int, cols: int, p: Player,
                     g1: Grid, c1: bool, g2: Grid, c2: bool, g3: Grid, c3: bool, g4: Grid, c4: bool)
    requires IsGrid(g, rows, cols) && InBounds(rows, cols, p.row, p.col)
    requires (g1, c1) == Scan(g, rows, cols, p, Up)
    requires (g2, c2) == Scan(g1, rows, cols, p, Down)
    requires (g3, c3) == Scan(g2, rows, cols, p, Right)
    requires (g4, c4) == Scan(g3, rows, cols, p, Left)
    ensures (c1 || c2 || c3 || c4) <==>
      g[p.row][p.col] != Pillar && exists d :: InSight(g, rows, cols, p, d)
    ensures g[p.row][p.col] != Pillar ==> forall d ::
      Line(g4, rows, cols, p, d)[1..] == Pursued(Line(g, rows, cols, p, d))[1..]
    ensures g[p.row][p.col] == Pillar ==> (g4, c1 || c2 || c3 || c4) == (g, false)
    ensures ScansFrame(g, rows, cols, p, g4, c1 || c2 || c3 || c4)
  {
    assert ScansFrame(g, rows, cols, p, g4, c1 || c2 || c3 || c4);
    assert ScanStep(g, g1, c1, rows, cols, p, Up) && ScanStep(g1, g2, c2, rows, cols, p, Down)
      && ScanStep(g2, g3, c3, rows, cols, p, Right) && ScanStep(g3, g4, c4, rows, cols, p, Left) by {
      ScanIsStep(g, rows, cols, p, Up);
      ScanIsStep(g1, rows, cols, p, Down);
      ScanIsStep(g2, rows, cols, p, Right);
      ScanIsStep(g3, rows, cols, p, Left);
    }
    ScansComposeFlag(g, rows, cols, p, g1, c1, g2, c2, g3, c3, g4, c4);
    if g[p.row][p.col] != Pillar {
      ScansComposeLines(g, rows, cols, p, g1, c1, g2, c2, g3, c3, g4, c4);
    }
  }

  /**
   The four scans in order: up, down, right, left. The flag is true iff one of them caught the
   player: iff the player's cell is not a pillar and a monster stands next to it along some ray.
   Past the player's cell every ray is `Pursued`; a pillar on the player's cell stops every scan.
   */
  function MonsterAttack(g: Grid, rows: int, cols: int, p: Player): (r: (Grid, bool))
    requires IsGrid(g, rows, cols) && InBounds(rows, cols, p.row, p.col)
    ensures IsGrid(r.0, rows, cols)
    ensures forall i, j :: InBounds(rows, cols, i, j) && i != p.row && j != p.col ==> r.0[i][j] == g[i][j]
    ensures forall i, j :: InBounds(rows, cols, i, j) && r.0[i][j] == PlayerTile ==> g[i][j] == PlayerTile
    ensures r.1 ==> r.0[p.row][p.col] == MonsterTile
    ensures !r.1 ==> r.0[p.row][p.col] == g[p.row][p.col]
    ensures g[p.row][p.col] != MonsterTile ==> (r.1 <==> r.0[p.row][p.col] == MonsterTile)
    ensures r.1 <==> g[p.row][p.col] != Pillar && exists d :: InSight(g, rows, cols, p, d)
    ensures g[p.row][p.col] != Pillar ==> forall d ::
      Line(r.0, rows, cols, p, d)[1..] == Pursued(Line(g, rows, cols, p, d))[1..]
    ensures g[p.row][p.col] == Pillar ==> r == (g, false)
  {
    var (g1, c1) := Scan(g, rows, cols, p, Up);
    var (g2, c2) := Scan(g1, rows, cols, p, Down);
    var (g3, c3) := Scan(g2, rows, cols, p, Right);
    var (g4, c4) := Scan(g3, rows, cols, p, Left);
    ScansCompose(g, rows, cols, p, g1, c1, g2, c2, g3, c3, g4, c4);
    (g4, c1 || c2 || c3 || c4)
  }

  /**
   The map invariant after an attack: with no capture the player tile is still the only one and
   in place; with a capture a monster stands on the player's cell and no player tile is left.
   */
  lemma AttackKeepsPlayerUnlessCaught(g: Grid, rows: int, cols: int, p: Player)
    requires IsGrid(g, rows, cols) && PlayerOnlyAt(g, p.row, p.col)
    ensures var r := MonsterAttack(g, rows, cols, p);
      && (!r.1 ==> PlayerOnlyAt(r.0, p.row, p.col))
      && (r.1 <==> forall i, j :: InBounds(rows, cols, i, j) ==> r.0[i][j] != PlayerTile)
  {
    var r := MonsterAttack(g, rows, cols, p);
    KeptUnlessCaught(g, r.0, r.1, rows, cols, p);
  }

  /** What the invariant needs of an attack: no new player tile, and the player's cell as stated. */
  lemma KeptUnlessCaught(g: Grid, h: Grid, caught: bool, rows: int, cols: int, p: Player)
    requires IsGrid(g, rows, cols) && IsGrid(h, rows, cols) && PlayerOnlyAt(g, p.row, p.col)
    requires forall i, j :: InBounds(rows, cols, i, j) && h[i][j] == PlayerTile ==> g[i][j] == PlayerTile
    requires caught ==> h[p.row][p.col] == MonsterTile
    requires !caught ==> h[p.row][p.col] == g[p.row][p.col]
    ensures !caught ==> PlayerOnlyAt(h, p.row, p.col)
    ensures caught <==> forall i, j :: InBounds(rows, cols, i, j) ==> h[i][j] != PlayerTile
  {
    if caught {
      forall i, j | InBounds(rows, cols, i, j)
        ensures h[i][j] != PlayerTile
      {
      }
    }
  }

  /**
   One scan as written: it starts at the player's own cell, so a monster standing there is
   moved one cell "toward the player", onto the cell behind it; when that cell is off the map
   the write goes outside the map (`None`).
   */
  function ScanAsWritten(g: Grid, rows: int, cols: int, p: Player, d: Ray): (r: Option<(Grid, bool)>)
    requires IsGrid(g, rows, cols) && InBounds(rows, cols, p.row, p.col)
    ensures r.Some? ==> IsGrid(r.value.0, rows, cols)
    ensures r.Some? ==> forall i, j ::
      (InBounds(rows, cols, i, j) && RayIndex(p, d, i, j) < 0 && RayIndex(p, Opposite(d), i, j) != 1)
      ==> r.value.0[i][j] == g[i][j]
    ensures r.None? <==>
      g[p.row][p.col] == MonsterTile && !InBounds(rows, cols, RayCell(p, Opposite(d), 1).0, RayCell(p, Opposite(d), 1).1)
  {
    var v := Line(g, rows, cols, p, d);
    if v[0] == Pillar then Some((g, false))
    else if v[0] == MonsterTile then
      var (br, bc) := RayCell(p, Opposite(d), 1);
      if !InBounds(rows, cols, br, bc) then None
      else
        var (w, caught) := Advance(v[0 := Open], 1, false);
        var h := PutLine(g, rows, cols, p, d, w);
        Some((Set(h, br, bc, MonsterTile), caught))
    else
      var (w, caught) := Advance(v, 1, false);
      Some((PutLine(g, rows, cols, p, d, w), caught))
  }

  /** The four scans as written, in order; `None` when one of them writes outside the map. */
  function MonsterAttackAsWritten(g: Grid, rows: int, cols: int, p: Player): (r: Option<(Grid, bool)>)
    requires IsGrid(g, rows, cols) && InBounds(rows, cols, p.row, p.col)
    ensures r.Some? ==> IsGrid(r.value.0, rows, cols)
    ensures r.Some? ==> forall i, j :: InBounds(rows, cols, i, j) && i != p.row && j != p.col ==> r.value.0[i][j] == g[i][j]
  {
    match ScanAsWritten(g, rows, cols, p, Up)
    case None => None
    case Some((g1, c1)) =>
      match ScanAsWritten(g1, rows, cols, p, Down)
      case None => None
      case Some((g2, c2)) =>
        match ScanAsWritten(g2, rows, cols, p, Right)
        case None => None
        case Some((g3, c3)) =>
          match ScanAsWritten(g3, rows, cols, p, Left)
          case None => None
          case Some((g4, c4)) => Some((g4, c1 || c2 || c3 || c4))
  }

  /** While no monster stands on the player's cell, a scan as written and the corrected scan agree. */
  lemma ScanAsWrittenAgrees(g: Grid, rows: int, cols: int, p: Player, d: Ray)
    requires IsGrid(g, rows, cols) && InBounds(rows, cols, p.row, p.col)
    requires g[p.row][p.col] != MonsterTile
    ensures ScanAsWritten(g, rows, cols, p, d) == Some(Scan(g, rows, cols, p, d))
  {
  }

  /**
   The two attacks agree whenever no monster reaches the player: the as-written one differs
   only once a monster stands on the player's cell at the start of a scan.
   */
  lemma AttackAsWrittenAgrees(g: Grid, rows: int, cols: int, p: Player)
    requires IsGrid(g, rows, cols) && InBounds(rows, cols, p.row, p.col)
    requires g[p.row][p.col] != MonsterTile
    ensures !MonsterAttack(g, rows, cols, p).1 ==>
      MonsterAttackAsWritten(g, rows, cols, p) == Some(MonsterAttack(g, rows, cols, p))
  {
    var (g1, c1) := Scan(g, rows, cols, p, Up);
    ScanAsWrittenAgrees(g, rows, cols, p, Up);
    if !c1 {
      var (g2, c2) := Scan(g1, rows, cols, p, Down);
      ScanAsWrittenAgrees(g1, rows, cols, p, Down);
      if !c2 {
        var (g3, c3) := Scan(g2, rows, cols, p, Right);
        ScanAsWrittenAgrees(g2, rows, cols, p, Right);
        if !c3 {
          ScanAsWrittenAgrees(g3, rows, cols, p, Left);
        }
      }
    }
  }

  /** Two maps of the same shape with the same tile in every cell are equal. */
  lemma SameGrid(a: Grid, b: Grid, rows: int, cols: int)
    requires IsGrid(a, rows, cols) && IsGrid(b, rows, cols)
    requires forall i, j :: InBounds(rows, cols, i, j) ==> a[i][j] == b[i][j]
    ensures a == b
  {
    forall i | 0 <= i < rows
      ensures a[i] == b[i]
    {
      assert forall j :: 0 <= j < cols ==> a[i][j] == b[i][j];
    }
  }

  /** A scan along a ray holding only the player's cell changes nothing. */
  lemma SingleCellScan(g: Grid, rows: int, cols: int, p: Player, d: Ray)
    requires IsGrid(g, rows, cols) && InBounds(rows, cols, p.row, p.col)
    requires RayLength(rows, cols, p, d) == 1
    ensures Scan(g, rows, cols, p, d) == (g, false)
  {
    var v := Line(g, rows, cols, p, d);
    if v[0] != Pillar {
      AdvanceIsPursued(v, false);
      assert Pursued(v) == v;
      PutLineOwnLine(g, rows, cols, p, d);
    }
  }

  lemma UpScanCatches()
    ensures Scan(["M", "o", "-"], 3, 1, Player(1, 0, 0), Up) == (["-", "M", "-"], true)
  {
    var g, p := ["M", "o", "-"], Player(1, 0, 0);
    var v := Line(g, 3, 1, p, Up);
    assert v == "oM";
    AdvanceIsPursued(v, false);
    assert Pursued(v) == "M-";
    var g1 := Scan(g, 3, 1, p, Up).0;
    var w := Line(g1, 3, 1, p, Up);
    assert w == "M-";
    assert g1[0][0] == w[1];
    SameGrid(g1, ["-", "M", "-"], 3, 1);
  }

  lemma DownScanKeepsCapture()
    ensures Scan(["-", "M", "-"], 3, 1, Player(1, 0, 0), Down) == (["-", "M", "-"], false)
  {
    var g, p := ["-", "M", "-"], Player(1, 0, 0);
    var v := Line(g, 3, 1, p, Down);
    assert v == "M-";
    AdvanceIsPursued(v, false);
    assert Pursued(v) == v;
    PutLineOwnLine(g, 3, 1, p, Down);
  }

  lemma DownScanUndoesCaptureAsWritten()
    ensures ScanAsWritten(["-", "M", "-"], 3, 1, Player(1, 0, 0), Down) == Some((["M", "-", "-"], false))
  {
    var g, p := ["-", "M", "-"], Player(1, 0, 0);
    var v := Line(g, 3, 1, p, Down);
    assert v == "M-";
    var u := v[0 := Open];
    AdvanceIsPursued(u, false);
    assert Pursued(u) == "--";
    var h := PutLine(g, 3, 1, p, Down, "--");
    assert h[2][0] == Line(h, 3, 1, p, Down)[1];
    SameGrid(Set(h, 0, 0, MonsterTile), ["M", "-", "-"], 3, 1);
  }

  /**
   A monster directly above the player on a 3 x 1 map: the up scan moves it onto the player and
   reports the capture, and the down scan, starting at the player's cell, moves it back up. As
   written the call reports a capture with no monster on the player's cell; corrected, the
   monster stays on the player.
   */
  lemma CaptureUndoneAsWritten()
    ensures MonsterAttackAsWritten(["M", "o", "-"], 3, 1, Player(1, 0, 0)) == Some((["M", "-", "-"], true))
    ensures MonsterAttack(["M", "o", "-"], 3, 1, Player(1, 0, 0)) == (["-", "M", "-"], true)
  {
    var p := Player(1, 0, 0);
    UpScanCatches();
    ScanAsWrittenAgrees(["M", "o", "-"], 3, 1, p, Up);
    DownScanKeepsCapture();
    DownScanUndoesCaptureAsWritten();
    SingleCellScan(["-", "M", "-"], 3, 1, p, Right);
    SingleCellScan(["-", "M", "-"], 3, 1, p, Left);
    SingleCellScan(["M", "-", "-"], 3, 1, p, Right);
    SingleCellScan(["M", "-", "-"], 3, 1, p, Left);
    ScanAsWrittenAgrees(["M", "-", "-"], 3, 1, p, Right);
    ScanAsWrittenAgrees(["M", "-", "-"], 3, 1, p, Left);
  }

  /** A monster next to the player on a two-cell line steps onto the player. */
  lemma PursuedOntoPlayer()
    ensures Pursued("oM") == "M-"
  {
  }

  lemma DownScanCatches()
    ensures Scan(["o", "M"], 2, 1, Player(0, 0, 0), Down) == (["M", "-"], true)
  {
    var g, p := ["o", "M"], Player(0, 0, 0);
    var v := Line(g, 2, 1, p, Down);
    assert v == "oM";
    PursuedOntoPlayer();
    var g2 := Scan(g, 2, 1, p, Down).0;
    var w := Line(g2, 2, 1, p, Down);
    assert w == "M-";
    assert g2[1][0] == w[1];
    SameGrid(g2, ["M", "-"], 2, 1);
  }

  /**
   A monster directly below the player in column 0 of a 2 x 1 map: the down scan moves it onto
   the player, and the right scan then moves it to column -1, outside the map. Corrected, the
   monster stays on the player and the attack reports the capture.
   */
  lemma WritesOutsideMapAsWritten()
    ensures MonsterAttackAsWritten(["o", "M"], 2, 1, Player(0, 0, 0)).None?
    ensures MonsterAttack(["o", "M"], 2, 1, Player(0, 0, 0)) == (["M", "-"], true)
  {
    var p := Player(0, 0, 0);
    SingleCellScan(["o", "M"], 2, 1, p, Up);
    ScanAsWrittenAgrees(["o", "M"], 2, 1, p, Up);
    DownScanCatches();
    ScanAsWrittenAgrees(["o", "M"], 2, 1, p, Down);
    SingleCellScan(["M", "-"], 2, 1, p, Right);
    SingleCellScan(["M", "-"], 2, 1, p, Left);
  }
}
