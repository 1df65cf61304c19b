/** The invader formation as values: invaders, the fixed 5 x 11 grid, the turn
    pointer that picks which invader moves next, the read-only queries over the
    grid, and the effect of each formation operation on these values. */
module Swarm {
  import opened Geometry
  import opened Projectiles

  const Rows: int := 5
  const Cols: int := 11
  /** The turn pointer's value at the start of every sweep: one less than 5 * 11. */
  const LastTick: int := 54

  datatype Axis = X | Y

  /** One invader: the top-left corner of its 16-wide cell, its hit-box width
      (8, 11 or 12 by row) and its height (8). */
  datatype Invader = Invader(x: int, y: int, w: int, h: int) {
    function Move(axis: Axis, distance: int): Invader
    {
      match axis
      case X => this.(x := x + distance)
      case Y => this.(y := y + distance)
    }

    /** Left edge of the hit box, centred in the cell and rounded down (with a
        positive divisor Dafny's `/` rounds down, as `Math.floor` does). */
    function XOffset(): int
    {
      x + (16 - w) / 2
    }

    function HitBox(): Box
    {
      Box(XOffset(), y, w, h)
    }
  }

  /** The hit box of an invader no wider than its cell lies inside the cell, with
      the spare width split evenly (the right margin takes the odd unit). */
  lemma HitBoxCentred(inv: Invader)
    requires 0 <= inv.w <= 16
    ensures inv.x <= inv.HitBox().x && inv.HitBox().x + inv.w <= inv.x + 16
    ensures var left, right := inv.HitBox().x - inv.x, inv.x + 16 - (inv.HitBox().x + inv.w);
            left <= right <= left + 1
  {
  }

  /** A grid cell holds an invader or is empty (destroyed). */
  datatype Cell = Empty | Live(invader: Invader)

  type Grid = seq<seq<Cell>>

  predicate WellFormed(g: Grid)
  {
    |g| == Rows && forall r :: 0 <= r < Rows ==> |g[r]| == Cols
  }

  predicate AllEmpty(g: Grid)
  {
    forall r, c :: 0 <= r < |g| && 0 <= c < |g[r]| ==> g[r][c].Empty?
  }

  // ---------------------------------------------------------------- spawning

  /** Hit-box width of the invaders of row `r`. */
  function RowWidth(r: nat): int
  {
    if r == 0 then 8 else if r < 3 then 11 else 12
  }

  /** `spawnInvaders(startY)`: a full grid, cell (r, c) at x = 16 + 16c and
      y = startY + 16r. */
  method SpawnInvaders(startY: int) returns (g: Grid)
    ensures WellFormed(g)
    ensures forall r, c :: 0 <= r < Rows && 0 <= c < Cols ==>
              g[r][c] == Live(Invader(16 + 16 * c, startY + 16 * r, RowWidth(r), 8))
  {
    g := [];
    var r := 0;
    while r < Rows
      invariant 0 <= r <= Rows && |g| == r
      invariant forall i :: 0 <= i < r ==> |g[i]| == Cols
      invariant forall i, c :: 0 <= i < r && 0 <= c < Cols ==>
                  g[i][c] == Live(Invader(16 + 16 * c, startY + 16 * i, RowWidth(i), 8))
    {
      var row: seq<Cell> := [];
      var c := 0;
      while c < Cols
        invariant 0 <= c <= Cols && |row| == c
        invariant forall j :: 0 <= j < c ==>
                    row[j] == Live(Invader(16 + 16 * j, startY + 16 * r, RowWidth(r), 8))
      {
        row := row + [Live(Invader(16 + 16 * c, startY + 16 * r, RowWidth(r), 8))];
        c := c + 1;
      }
      g := g + [row];
      r := r + 1;
    }
  }

  // ------------------------------------------------------------- turn pointer

  /** The grid cell the turn pointer `t` designates: row `t / 11`, and column
      `t % 11` when moving right, `10 - t % 11` when moving left. */
  function RowOf(t: int): (r: int)
    requires 0 <= t <= LastTick
    ensures 0 <= r < Rows
  {
    t / Cols
  }

  function ColOf(t: int, right: bool): (c: int)
    requires 0 <= t <= LastTick
    ensures 0 <= c < Cols
  {
    if right then t % Cols else Cols - 1 - t % Cols
  }

  /** The inverse map: the pointer value that designates cell (r, c). */
  function TickOf(r: int, c: int, right: bool): int
  {
    Cols * r + (if right then c else Cols - 1 - c)
  }

  /** The pointer-to-cell map is a bijection between 0..54 and the 5 x 11 grid, for
      either direction: it is inverted by TickOf from both sides. */
  lemma TickToCell(t: int, right: bool)
    requires 0 <= t <= LastTick
    ensures TickOf(RowOf(t), ColOf(t, right), right) == t
  {
  }

  lemma CellToTick(r: int, c: int, right: bool)
    requires 0 <= r < Rows && 0 <= c < Cols
    ensures 0 <= TickOf(r, c, right) <= LastTick
    ensures RowOf(TickOf(r, c, right)) == r && ColOf(TickOf(r, c, right), right) == c
  {
  }

  predicate LiveAt(g: Grid, t: int, right: bool)
    requires WellFormed(g) && 0 <= t <= LastTick
  {
    g[RowOf(t)][ColOf(t, right)].Live?
  }

  /** Where the `nextInvader` getter leaves the pointer when it starts at `t`: the
      largest value `<= t` that designates a live cell, or -1 if there is none. */
  function NextLive(g: Grid, right: bool, t: int): (r: int)
    requires WellFormed(g) && -1 <= t <= LastTick
    ensures -1 <= r <= t
    ensures r >= 0 ==> LiveAt(g, r, right)
    ensures forall j :: r < j <= t ==> !LiveAt(g, j, right)
    decreases t + 1
  {
    if t < 0 then -1
    else if LiveAt(g, t, right) then t
    else NextLive(g, right, t - 1)
  }

  /** In a grid that still holds an invader, a fresh sweep (pointer at 54) finds a
      live invader in either direction. This is why `update` recurses at most once. */
  lemma SweepFindsInvader(g: Grid, right: bool)
    requires WellFormed(g) && !AllEmpty(g)
    ensures NextLive(g, right, LastTick) >= 0
  {
    var r, c :| 0 <= r < Rows && 0 <= c < Cols && g[r][c].Live?;
    CellToTick(r, c, right);
    assert LiveAt(g, TickOf(r, c, right), right);
  }

  // ----------------------------------------------------------- listing, cleared

  /** The live invaders of one row, left to right. */
  function RowInvaders(row: seq<Cell>): seq<Invader>
  {
    if |row| == 0 then []
    else RowInvaders(row[..|row| - 1]) + (if row[|row| - 1].Live? then [row[|row| - 1].invader] else [])
  }

  /** The `invaders` getter: every live invader, row by row. */
  function LiveInvaders(g: seq<seq<Cell>>): seq<Invader>
  {
    if |g| == 0 then [] else LiveInvaders(g[..|g| - 1]) + RowInvaders(g[|g| - 1])
  }

  /** The `cleared` getter. */
  predicate Cleared(g: Grid)
  {
    |LiveInvaders(g)| == 0
  }

  lemma {:induction false} RowInvadersEmpty(row: seq<Cell>)
    ensures |RowInvaders(row)| == 0 <==> forall c :: 0 <= c < |row| ==> row[c].Empty?
  {
    if |row| > 0 {
      var init := row[..|row| - 1];
      RowInvadersEmpty(init);
      assert forall c :: 0 <= c < |init| ==> init[c] == row[c];
    }
  }

  /** The formation is cleared exactly when every cell of the grid is empty. */
  lemma {:induction false} ClearedIffAllEmpty(g: seq<seq<Cell>>)
    ensures |LiveInvaders(g)| == 0 <==> AllEmpty(g)
  {
    if |g| > 0 {
      var init := g[..|g| - 1];
      ClearedIffAllEmpty(init);
      RowInvadersEmpty(g[|g| - 1]);
      assert forall r :: 0 <= r < |init| ==> init[r] == g[r];
    }
  }

  // ------------------------------------------------------------------ columns

  /** The live invaders among the first `n` rows of column `c`, top to bottom. */
  function ColumnUpTo(g: Grid, c: int, n: int): seq<Invader>
    requires WellFormed(g) && 0 <= c < Cols && 0 <= n <= Rows
  {
    if n == 0 then []
    else ColumnUpTo(g, c, n - 1) + (if g[n - 1][c].Live? then [g[n - 1][c].invader] else [])
  }

  /** `getColumn(c)`: the live invaders of column `c`, top to bottom. */
  function Column(g: Grid, c: int): seq<Invader>
    requires WellFormed(g) && 0 <= c < Cols
  {
    ColumnUpTo(g, c, Rows)
  }

  predicate ColumnEmpty(g: Grid, c: int)
    requires WellFormed(g) && 0 <= c < Cols
  {
    forall r :: 0 <= r < Rows ==> g[r][c].Empty?
  }

  lemma {:induction false} ColumnUpToEmpty(g: Grid, c: int, n: int)
    requires WellFormed(g) && 0 <= c < Cols && 0 <= n <= Rows
    ensures |ColumnUpTo(g, c, n)| == 0 <==> forall r :: 0 <= r < n ==> g[r][c].Empty?
  {
    if n > 0 {
      ColumnUpToEmpty(g, c, n - 1);
    }
  }

  lemma {:induction false} ColumnUpToAtEdge(g: Grid, c: int, n: int, right: bool)
    requires WellFormed(g) && 0 <= c < Cols && 0 <= n <= Rows
    ensures (forall k :: 0 <= k < |ColumnUpTo(g, c, n)| ==> AtEdge(ColumnUpTo(g, c, n)[k], right))
            <==> (forall r :: 0 <= r < n && g[r][c].Live? ==> AtEdge(g[r][c].invader, right))
  {
    if n > 0 {
      ColumnUpToAtEdge(g, c, n - 1, right);
      var pre := ColumnUpTo(g, c, n - 1);
      var col := ColumnUpTo(g, c, n);
      if g[n - 1][c].Live? {
        assert col == pre + [g[n - 1][c].invader];
        assert col[|pre|] == g[n - 1][c].invader;
        assert forall k :: 0 <= k < |pre| ==> col[k] == pre[k];
      } else {
        assert col == pre;
      }
    }
  }

  lemma {:induction false} ColumnUpToLast(g: Grid, c: int, n: int)
    requires WellFormed(g) && 0 <= c < Cols && 0 <= n <= Rows
    ensures |ColumnUpTo(g, c, n)| > 0 ==>
              exists r :: 0 <= r < n && g[r][c] == Live(ColumnUpTo(g, c, n)[|ColumnUpTo(g, c, n)| - 1])
                          && forall r' :: r < r' < n ==> g[r'][c].Empty?
  {
    if n > 0 {
      ColumnUpToLast(g, c, n - 1);
      if g[n - 1][c].Live? {
        assert g[n - 1][c] == Live(ColumnUpTo(g, c, n)[|ColumnUpTo(g, c, n)| - 1]);
      }
    }
  }

  /** A column is empty exactly when all five of its cells are. */
  lemma ColumnEmptyIff(g: Grid, c: int)
    requires WellFormed(g) && 0 <= c < Cols
    ensures |Column(g, c)| == 0 <==> ColumnEmpty(g, c)
  {
    ColumnUpToEmpty(g, c, Rows);
  }

  /** The last invader of a non-empty column is its bottom-most live cell. */
  lemma ColumnLastIsBottom(g: Grid, c: int)
    requires WellFormed(g) && 0 <= c < Cols && |Column(g, c)| > 0
    ensures exists r :: 0 <= r < Rows && g[r][c] == Live(Column(g, c)[|Column(g, c)| - 1])
                        && forall r' :: r < r' < Rows ==> g[r'][c].Empty?
  {
    ColumnUpToLast(g, c, Rows);
  }

  // ----------------------------------------------------------------- boundary

  /** The edge test of `isAtBoundary` for one invader. */
  predicate AtEdge(inv: Invader, right: bool)
  {
    if right then inv.x >= GameWidth - 16 else inv.x <= 0
  }

  /** The first non-empty column at or below `c`, scanning downwards; -1 if none. */
  function ScanDown(g: Grid, c: int): (r: int)
    requires WellFormed(g) && -1 <= c < Cols
    ensures -1 <= r <= c
    ensures r >= 0 ==> |Column(g, r)| > 0
    ensures forall c' :: r < c' <= c ==> |Column(g, c')| == 0
    decreases c + 1
  {
    if c < 0 then -1
    else if |Column(g, c)| > 0 then c
    else ScanDown(g, c - 1)
  }

  /** The first non-empty column at or above `c`, scanning upwards; -1 if none. */
  function ScanUp(g: Grid, c: int): (r: int)
    requires WellFormed(g) && 0 <= c <= Cols
    ensures r == -1 || c <= r < Cols
    ensures r >= 0 ==> |Column(g, r)| > 0
    ensures forall c' :: c <= c' < Cols && (r == -1 || c' < r) ==> |Column(g, c')| == 0
    decreases Cols - c
  {
    if c >= Cols then -1
    else if |Column(g, c)| > 0 then c
    else ScanUp(g, c + 1)
  }

  /** The column `isAtBoundary` tests: the first non-empty one from the leading
      edge (from column 10 down when moving right, from column 0 up when moving
      left), or -1 when the grid is empty. */
  function LeadingColumn(g: Grid, right: bool): int
    requires WellFormed(g)
  {
    if right then ScanDown(g, Cols - 1) else ScanUp(g, 0)
  }

  /** The `isAtBoundary` getter. */
  predicate AtBoundary(g: Grid, right: bool)
    requires WellFormed(g)
  {
    var c := LeadingColumn(g, right);
    c >= 0 && forall k :: 0 <= k < |Column(g, c)| ==> AtEdge(Column(g, c)[k], right)
  }

  /** Column `c` leads the formation: it has a live cell and every column ahead of it
      in the direction of travel is empty. */
  predicate Leads(g: Grid, c: int, right: bool)
    requires WellFormed(g) && 0 <= c < Cols
  {
    !ColumnEmpty(g, c) &&
    forall c' :: 0 <= c' < Cols && (if right then c < c' else c' < c) ==> ColumnEmpty(g, c')
  }

  /** Reference reading of the boundary test: the formation is at the boundary iff
      its leading column exists and every live invader in it has reached the edge. */
  lemma AtBoundaryMeaning(g: Grid, right: bool)
    requires WellFormed(g)
    ensures AtBoundary(g, right) <==>
              exists c :: 0 <= c < Cols && Leads(g, c, right) &&
                          forall r :: 0 <= r < Rows && g[r][c].Live? ==> AtEdge(g[r][c].invader, right)
  {
    forall c | 0 <= c < Cols {
      ColumnEmptyIff(g, c);
    }
    var lead := LeadingColumn(g, right);
    if lead >= 0 {
      ColumnUpToAtEdge(g, lead, Rows, right);
      assert Leads(g, lead, right);
      forall c | 0 <= c < Cols && Leads(g, c, right) ensures c == lead {
      }
    } else {
      forall c | 0 <= c < Cols ensures !Leads(g, c, right) {
      }
    }
  }

  /** An empty formation is never at the boundary. */
  lemma EmptyNotAtBoundary(g: Grid, right: bool)
    requires WellFormed(g) && AllEmpty(g)
    ensures !AtBoundary(g, right)
  {
    forall c | 0 <= c < Cols {
      ColumnEmptyIff(g, c);
    }
  }

  /** Moving right, the threshold is x = 208: a leading column whose invaders all
      stand at x = 208 is at the boundary; one invader at x = 207 keeps it off. */
  lemma BoundaryThreshold(g: Grid, c: int)
    requires WellFormed(g) && 0 <= c < Cols && Leads(g, c, true)
    ensures (forall r :: 0 <= r < Rows && g[r][c].Live? ==> g[r][c].invader.x == 208) ==> AtBoundary(g, true)
    ensures (exists r :: 0 <= r < Rows && g[r][c].Live? && g[r][c].invader.x == 207) ==> !AtBoundary(g, true)
  {
    AtBoundaryMeaning(g, true);
  }

  // ------------------------------------------------------------------ shooter

  /** The indices of the non-empty columns among columns 10 down to `c + 1`, in that
      order: the columns the `shooter` getter has collected before it reaches column `c`. */
  function NonEmptyAbove(g: Grid, c: int): (r: seq<int>)
    requires WellFormed(g) && -1 <= c < Cols
    ensures forall k :: 0 <= k < |r| ==> c < r[k] < Cols
    decreases Cols - 1 - c
  {
    if c == Cols - 1 then []
    else NonEmptyAbove(g, c + 1) + (if |Column(g, c + 1)| > 0 then [c + 1] else [])
  }

  /** Every index listed names a non-empty column. */
  lemma {:induction false} NonEmptyAboveListed(g: Grid, c: int, k: int)
    requires WellFormed(g) && -1 <= c < Cols && 0 <= k < |NonEmptyAbove(g, c)|
    ensures |Column(g, NonEmptyAbove(g, c)[k])| > 0
    decreases Cols - 1 - c
  {
    if k < |NonEmptyAbove(g, c + 1)| {
      NonEmptyAboveListed(g, c + 1, k);
    }
  }

  /** The list is empty exactly when all the columns it ranges over are. */
  lemma {:induction false} NonEmptyAboveEmpty(g: Grid, c: int)
    requires WellFormed(g) && -1 <= c < Cols
    ensures |NonEmptyAbove(g, c)| == 0 <==> forall c' :: c < c' < Cols ==> |Column(g, c')| == 0
    decreases Cols - 1 - c
  {
    if c < Cols - 1 {
      NonEmptyAboveEmpty(g, c + 1);
      assert NonEmptyAbove(g, c) ==
             NonEmptyAbove(g, c + 1) + (if |Column(g, c + 1)| > 0 then [c + 1] else []);
    }
  }

  /** Every non-empty column the scan has passed is listed. */
  lemma {:induction false} NonEmptyAboveComplete(g: Grid, c: int, c': int)
    requires WellFormed(g) && -1 <= c < Cols && c < c' < Cols && |Column(g, c')| > 0
    ensures c' in NonEmptyAbove(g, c)
    decreases Cols - 1 - c
  {
    if c' > c + 1 {
      NonEmptyAboveComplete(g, c + 1, c');
    }
  }

  /** The list runs from column 10 down: its indices strictly decrease. */
  lemma {:induction false} NonEmptyAboveDecreasing(g: Grid, c: int)
    requires WellFormed(g) && -1 <= c < Cols
    ensures forall i, j :: 0 <= i < j < |NonEmptyAbove(g, c)| ==>
              NonEmptyAbove(g, c)[i] > NonEmptyAbove(g, c)[j]
    decreases Cols - 1 - c
  {
    if c < Cols - 1 {
      NonEmptyAboveDecreasing(g, c + 1);
    }
  }

  /** The columns with the given indices, in order. */
  function ColumnsAt(g: Grid, idx: seq<int>): seq<seq<Invader>>
    requires WellFormed(g) && forall k :: 0 <= k < |idx| ==> 0 <= idx[k] < Cols
  {
    seq(|idx|, k requires 0 <= k < |idx| => Column(g, idx[k]))
  }

  /** Moving the scan of the `shooter` getter past column `c` appends that column
      exactly when it is non-empty. */
  lemma ColumnsAtStep(g: Grid, c: int)
    requires WellFormed(g) && 0 <= c < Cols
    ensures ColumnsAt(g, NonEmptyAbove(g, c - 1)) ==
            ColumnsAt(g, NonEmptyAbove(g, c)) + (if |Column(g, c)| > 0 then [Column(g, c)] else [])
  {
  }

  /** `validColumns`: every non-empty column, from column 10 down to column 0. */
  function ValidColumns(g: Grid): (r: seq<seq<Invader>>)
    requires WellFormed(g)
  {
    ColumnsAt(g, NonEmptyAbove(g, -1))
  }

  /** The `shooter` getter with its random pick supplied as `k`: the last (bottom-most)
      invader of the `k`-th non-empty column. */
  function Shooter(g: Grid, k: int): Invader
    requires WellFormed(g) && 0 <= k < |ValidColumns(g)|
  {
    var column := ValidColumns(g)[k];
    NonEmptyAboveListed(g, -1, k);
    column[|column| - 1]
  }

  lemma SomeColumnNonEmpty(g: Grid)
    requires WellFormed(g) && |NonEmptyAbove(g, -1)| > 0
    ensures !AllEmpty(g)
  {
    NonEmptyAboveListed(g, -1, 0);
    var c := NonEmptyAbove(g, -1)[0];
    ColumnEmptyIff(g, c);
    assert !ColumnEmpty(g, c);
    var r :| 0 <= r < Rows && g[r][c].Live?;
  }

  lemma NoColumnNonEmpty(g: Grid)
    requires WellFormed(g) && |NonEmptyAbove(g, -1)| == 0
    ensures AllEmpty(g)
  {
    NonEmptyAboveEmpty(g, -1);
    forall r, c | 0 <= r < Rows && 0 <= c < Cols ensures g[r][c].Empty? {
      ColumnEmptyIff(g, c);
    }
  }

  /** A shooter can be picked exactly when the formation is not cleared. */
  lemma ShooterExistsIffNotCleared(g: Grid)
    requires WellFormed(g)
    ensures |ValidColumns(g)| > 0 <==> !Cleared(g)
  {
    assert |ValidColumns(g)| == |NonEmptyAbove(g, -1)|;
    if |NonEmptyAbove(g, -1)| > 0 {
      SomeColumnNonEmpty(g);
    } else {
      NoColumnNonEmpty(g);
    }
    ClearedIffAllEmpty(g);
  }

  /** Cell (r, c) holds `inv` and no cell below it in column c is live. */
  predicate BottomMost(g: Grid, r: int, c: int, inv: Invader)
    requires WellFormed(g)
  {
    0 <= r < Rows && 0 <= c < Cols && g[r][c] == Live(inv) &&
    forall r' :: r < r' < Rows ==> g[r'][c].Empty?
  }

  /** Whatever the pick, the shooter is a live invader with no live invader below it
      in its column. */
  lemma ShooterIsBottomMost(g: Grid, k: int)
    requires WellFormed(g) && 0 <= k < |ValidColumns(g)|
    ensures exists r, c :: BottomMost(g, r, c, Shooter(g, k))
  {
    NonEmptyAboveListed(g, -1, k);
    var c := NonEmptyAbove(g, -1)[k];
    ColumnLastIsBottom(g, c);
    var column := Column(g, c);
    assert ValidColumns(g)[k] == column;
    var r :| 0 <= r < Rows && g[r][c] == Live(column[|column| - 1])
             && forall r' :: r < r' < Rows ==> g[r'][c].Empty?;
    assert BottomMost(g, r, c, Shooter(g, k));
  }

  /** The position of a non-empty column in `validColumns`. */
  lemma ValidColumnsPosition(g: Grid, c: int) returns (k: int)
    requires WellFormed(g) && 0 <= c < Cols && |Column(g, c)| > 0
    ensures 0 <= k < |ValidColumns(g)| && ValidColumns(g)[k] == Column(g, c)
  {
    NonEmptyAboveComplete(g, -1, c);
    var idx := NonEmptyAbove(g, -1);
    k :| 0 <= k < |idx| && idx[k] == c;
    assert ColumnsAt(g, idx)[k] == Column(g, idx[k]);
  }

  /** Conversely, the bottom-most invader of every non-empty column is the shooter
      for some pick. */
  lemma EveryColumnCanShoot(g: Grid, c: int)
    requires WellFormed(g) && 0 <= c < Cols && |Column(g, c)| > 0
    ensures exists k :: 0 <= k < |ValidColumns(g)| &&
              Shooter(g, k) == Column(g, c)[|Column(g, c)| - 1]
  {
    var k := ValidColumnsPosition(g, c);
    assert Shooter(g, k) == Column(g, c)[|Column(g, c)| - 1];
  }

  /** The missile the formation fires from `shooter`: just below it, falling at 2. */
  function EnemyShot(shooter: Invader): MissileState
  {
    MissileState(shooter.x + 8, shooter.y + 8, 2)
  }

  // ------------------------------------------------------------------- update

  /** The formation's movement state. */
  datatype FormationState = FormationState(grid: Grid, tick: int, right: bool, descend: bool)

  predicate Ready(f: FormationState)
  {
    WellFormed(f.grid) && -1 <= f.tick <= LastTick
  }

  /** What `update` does to the invader it picks. */
  function StepInvader(inv: Invader, right: bool, descend: bool): Invader
  {
    if descend then inv.Move(Y, 8) else inv.Move(X, if right then 2 else -2)
  }

  /** The state `update` starts over from when the sweep is exhausted: the pointer back
      at 54; a descending formation stops descending and reverses, any other one
      starts descending when it is at the boundary. */
  function Turned(f: FormationState): FormationState
    requires WellFormed(f.grid)
  {
    var right' := if f.descend then !f.right else f.right;
    var descend' := if f.descend then false else AtBoundary(f.grid, f.right);
    FormationState(f.grid, LastTick, right', descend')
  }

  /** The movement part of `update` (the shot it may fire first is `EnemyShot`). */
  function March(f: FormationState): (r: FormationState)
    requires Ready(f) && !Cleared(f.grid)
    ensures Ready(r) && r.tick < LastTick && !Cleared(r.grid)
    decreases if NextLive(f.grid, f.right, f.tick) >= 0 then 0 else 1
  {
    var t := NextLive(f.grid, f.right, f.tick);
    if t >= 0 then
      var row, col := RowOf(t), ColOf(t, f.right);
      var moved := StepInvader(f.grid[row][col].invader, f.right, f.descend);
      var g' := f.grid[row := f.grid[row][col := Live(moved)]];
      ClearedIffAllEmpty(f.grid);
      ClearedIffAllEmpty(g');
      assert g'[row][col].Live?;
      f.(grid := g', tick := t - 1)
    else
      ClearedIffAllEmpty(f.grid);
      SweepFindsInvader(f.grid, Turned(f).right);
      March(Turned(f))
  }

  /** `g'` is `g` with the live invader of cell (r, c) stepped and every other cell
      unchanged. */
  predicate StepsOnly(g: Grid, g': Grid, r: int, c: int, right: bool, descend: bool)
  {
    0 <= r < |g| && 0 <= c < |g[r]| && g[r][c].Live? &&
    g' == g[r := g[r][c := Live(StepInvader(g[r][c].invader, right, descend))]]
  }

  /** Within a sweep, `update` steps the invader at the pointer and leaves the pointer
      one below it. */
  lemma MarchWithinSweep(f: FormationState)
    requires Ready(f) && !Cleared(f.grid) && NextLive(f.grid, f.right, f.tick) >= 0
    ensures var r := March(f);
            r.right == f.right && r.descend == f.descend &&
            r.tick == NextLive(f.grid, f.right, f.tick) - 1 &&
            StepsOnly(f.grid, r.grid, RowOf(r.tick + 1), ColOf(r.tick + 1, r.right), r.right, r.descend)
  {
  }

  /** One `update` moves exactly one live invader: the one the pointer designated
      before it was decremented, by 8 in y when descending and otherwise by 2 in x
      in the direction of travel, with the flags in force after any sweep change. */
  lemma MarchMovesOne(f: FormationState)
    requires Ready(f) && !Cleared(f.grid)
    ensures var r := March(f);
            StepsOnly(f.grid, r.grid, RowOf(r.tick + 1), ColOf(r.tick + 1, r.right), r.right, r.descend)
  {
    if NextLive(f.grid, f.right, f.tick) >= 0 {
      MarchWithinSweep(f);
    } else {
      MarchAfterTurn(f);
    }
  }

  /** The exhausted-sweep case: the invader moved is the one the turned state's
      pointer designates, stepped with the turned flags. */
  lemma MarchAfterTurn(f: FormationState)
    requires Ready(f) && !Cleared(f.grid) && NextLive(f.grid, f.right, f.tick) < 0
    ensures var r := March(f);
            StepsOnly(f.grid, r.grid, RowOf(r.tick + 1), ColOf(r.tick + 1, r.right), r.right, r.descend)
  {
    var f' := Turned(f);
    MarchTurns(f);
    MarchWithinSweep(f');
    assert f'.grid == f.grid;
  }

  /** `update` only moves invaders: every cell that was live is live afterwards and
      every empty cell stays empty. */
  lemma MarchKeepsCells(f: FormationState)
    requires Ready(f) && !Cleared(f.grid)
    ensures forall row, col :: 0 <= row < Rows && 0 <= col < Cols ==>
              March(f).grid[row][col].Live? == f.grid[row][col].Live?
  {
    MarchMovesOne(f);
  }

  /** An exhausted sweep: `update` starts over from the turned state, which finds an
      invader at once. */
  lemma MarchTurns(f: FormationState)
    requires Ready(f) && !Cleared(f.grid) && NextLive(f.grid, f.right, f.tick) < 0
    ensures !Cleared(f.grid) && NextLive(f.grid, Turned(f).right, LastTick) >= 0
    ensures March(f) == March(Turned(f))
  {
    ClearedIffAllEmpty(f.grid);
    SweepFindsInvader(f.grid, Turned(f).right);
  }

  /** Within a sweep the flags stay and the pointer ends one below the invader moved.
      When the sweep is exhausted, a descending formation stops descending and turns
      around, any other one starts descending exactly when it is at the boundary, and
      a fresh sweep from 54 is guaranteed to find an invader, so `update` recurses at
      most once. */
  lemma MarchSweep(f: FormationState)
    requires Ready(f) && !Cleared(f.grid)
    ensures var t, r := NextLive(f.grid, f.right, f.tick), March(f);
            if t >= 0 then r.tick == t - 1 && r.right == f.right && r.descend == f.descend
            else r.right == (f.right != f.descend) &&
                 r.descend == (!f.descend && AtBoundary(f.grid, f.right)) &&
                 NextLive(f.grid, r.right, LastTick) >= 0 &&
                 r.tick == NextLive(f.grid, r.right, LastTick) - 1
  {
    if NextLive(f.grid, f.right, f.tick) < 0 {
      ClearedIffAllEmpty(f.grid);
      SweepFindsInvader(f.grid, f.right != f.descend);
    }
  }
}
