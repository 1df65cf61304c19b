/** The `Invaders` object: the grid, the turn pointer, the direction and descent
    flags and the formation's own missile array, with the operations that update
    them in place. Each query loop is proved to compute the value function of the
    same name in `Swarm`, and each state change to have the effect `Swarm` and
    `Collisions` describe. */
module Formation {
  import opened Geometry
  import opened Projectiles
  import opened Swarm
  import opened Collisions

  /** Cell (r, c) comes before (row, col) in the backwards scan of
      `checkForCollisions`: rows from 4 down to 0, columns from 10 down to 0. */
  predicate Scanned(r: int, c: int, row: int, col: int)
  {
    r > row || (r == row && c > col)
  }

  /** Some cell already scanned is hit by `m`. */
  predicate HitScanned(g: Grid, m: MissileState, row: int, col: int)
    requires WellFormed(g)
  {
    exists r, c :: 0 <= r < Rows && 0 <= c < Cols && Scanned(r, c, row, col) && Hit(g[r][c], m)
  }

  /** Where the scan of one missile stands once every cell before (row, col) has been
      tested: those of its cells that the missile hits are emptied, and the missile
      has been spliced out of its array if any of them was hit. */
  ghost predicate ScanAt(g0: Grid, m: MissileState, missile: Missile, before: seq<Missile>,
                         g: Grid, items: seq<Missile>, row: int, col: int)
    requires WellFormed(g0)
  {
    g == StruckUpTo(g0, m, row, col) &&
    items == if HitScanned(g0, m, row, col) then RemoveElement(before, missile) else before
  }

  class Invaders {
    var grid: Grid
    /** The turn pointer: 54 at the start of a sweep, -1 once it is exhausted. */
    var tick: int
    var right: bool
    var descend: bool
    const missiles: Pool
    const missileSpeed: int := 2

    ghost predicate Valid()
      reads this, missiles
    {
      WellFormed(grid) && -1 <= tick <= LastTick && missiles.Valid()
    }

    /** The movement state as a value. */
    function State(): FormationState
      reads this
    {
      FormationState(grid, tick, right, descend)
    }

    /** A full grid, the pointer at 54, moving right, not descending, no missiles. */
    constructor (startY: int)
      ensures Valid() && fresh(missiles) && missiles.items == []
      ensures forall r, c :: 0 <= r < Rows && 0 <= c < Cols ==>
                grid[r][c] == Live(Invader(16 + 16 * c, startY + 16 * r, RowWidth(r), 8))
      ensures tick == LastTick && right && !descend
    {
      var g := SpawnInvaders(startY);
      grid := g;
      tick := LastTick;
      right := true;
      descend := false;
      missiles := new Pool();
    }

    /** `getColumn(col)`. */
    method GetColumn(col: int) returns (column: seq<Invader>)
      requires WellFormed(grid) && 0 <= col < Cols
      ensures column == Column(grid, col)
    {
      column := [];
      var r := 0;
      while r < |grid|
        invariant 0 <= r <= Rows && column == ColumnUpTo(grid, col, r)
      {
        if grid[r][col].Live? {
          column := column + [grid[r][col].invader];
        }
        r := r + 1;
      }
    }

    /** The `isAtBoundary` getter. */
    method IsAtBoundary() returns (b: bool)
      requires WellFormed(grid)
      ensures b == AtBoundary(grid, right)
    {
      var c;
      var column;
      if right {
        c := 10;
        column := GetColumn(c);
        while |column| == 0
          invariant 0 <= c < Cols && column == Column(grid, c)
          invariant ScanDown(grid, Cols - 1) == ScanDown(grid, c)
          decreases c
        {
          c := c - 1;
          if c < 0 {
            return false;
          }
          column := GetColumn(c);
        }
      } else {
        c := 0;
        column := GetColumn(c);
        while |column| == 0
          invariant 0 <= c < Cols && column == Column(grid, c)
          invariant ScanUp(grid, 0) == ScanUp(grid, c)
          decreases Cols - c
        {
          c := c + 1;
          if c > 10 {
            return false;
          }
          column := GetColumn(c);
        }
      }
      b := forall k :: 0 <= k < |column| ==> AtEdge(column[k], right);
    }

    /** The `invaders` getter. */
    method AllInvaders() returns (list: seq<Invader>)
      ensures list == LiveInvaders(grid)
    {
      list := [];
      var r := 0;
      while r < |grid|
        invariant 0 <= r <= |grid| && list == LiveInvaders(grid[..r])
      {
        var row := grid[r];
        ghost var base := list;
        var c := 0;
        while c < |row|
          invariant 0 <= c <= |row| && list == base + RowInvaders(row[..c])
        {
          assert row[..c + 1][..c] == row[..c];
          if row[c].Live? {
            list := list + [row[c].invader];
          }
          c := c + 1;
        }
        assert row[..c] == row;
        assert grid[..r + 1][..r] == grid[..r];
        r := r + 1;
      }
      assert grid[..r] == grid;
    }

    /** The `cleared` getter. */
    method IsCleared() returns (b: bool)
      ensures b == Cleared(grid)
    {
      var list := AllInvaders();
      b := |list| == 0;
    }

    /** The `shooter` getter, with the random column index supplied as `k`. */
    method PickShooter(k: int) returns (shooter: Invader)
      requires WellFormed(grid) && 0 <= k < |ValidColumns(grid)|
      ensures shooter == Shooter(grid, k)
    {
      var validColumns: seq<seq<Invader>> := [];
      var c := |grid[0]| - 1;
      while c >= 0
        invariant -1 <= c < Cols
        invariant validColumns == ColumnsAt(grid, NonEmptyAbove(grid, c))
      {
        var column := GetColumn(c);
        ColumnsAtStep(grid, c);
        if |column| > 0 {
          validColumns := validColumns + [column];
        }
        c := c - 1;
      }
      assert validColumns == ValidColumns(grid);
      NonEmptyAboveListed(grid, -1, k);
      var column := validColumns[k];
      shooter := column[|column| - 1];
    }

    /** The `nextInvader` getter: skips empty cells by decrementing the pointer and
        returns the live cell it stops at, or `Empty` (the source's `false`) once the
        pointer has run out. */
    method NextInvader() returns (cell: Cell)
      requires WellFormed(grid) && -1 <= tick <= LastTick
      modifies this
      ensures grid == old(grid) && right == old(right) && descend == old(descend)
      ensures tick == NextLive(grid, right, old(tick))
      ensures cell == if tick >= 0 then grid[RowOf(tick)][ColOf(tick, right)] else Empty
      decreases tick + 1
    {
      if tick < 0 {
        return Empty;
      }
      var row := tick / 11;
      var col := if right then tick % 11 else 10 - tick % 11;
      cell := grid[row][col];
      if cell.Live? {
        return;
      }
      tick := tick - 1;
      cell := NextInvader();
    }

    /** `shoot(shooter)`: a missile just below the shooter, falling at `missileSpeed`. */
    method Shoot(shooter: Invader)
      requires missiles.Valid()
      modifies missiles
      ensures missiles.Valid()
      ensures missiles.Shots() == old(missiles.Shots()) + [EnemyShot(shooter)]
      ensures |missiles.items| == |old(missiles.items)| + 1
      ensures forall m :: m in missiles.items ==> m in old(missiles.items) || fresh(m)
    {
      var m := new Missile(shooter.x + 8, shooter.y + 8, missileSpeed, missiles);
      missiles.Push(m);
      assert missiles.items[..|missiles.items| - 1] == old(missiles.items);
    }

    /** `update()`, with the random pick of the shooter supplied as `k`: fire when the
        formation has no missile in flight, then move the next invader, or change the
        flags at the end of a sweep and start over from 54. */
    method Update(k: int)
      requires Valid() && !Cleared(grid)
      requires |missiles.items| == 0 ==> 0 <= k < |ValidColumns(grid)|
      modifies this, missiles
      ensures Valid()
      ensures State() == March(old(State()))
      ensures missiles.Shots() == old(missiles.Shots()) +
                (if |old(missiles.items)| == 0 then [EnemyShot(Shooter(old(grid), k))] else [])
      ensures forall m :: m in missiles.items ==> m in old(missiles.items) || fresh(m)
      decreases if NextLive(grid, right, tick) >= 0 then 0 else 1
    {
      FireIfIdle(k);
      label fired:
      var moved := MoveNext();
      ShotsUnchanged@fired(missiles);
      if !moved {
        Update(k);
      }
    }

    /** The first statement of `update`: `if (!this.missiles.length) this.shoot(this.shooter)`. */
    method FireIfIdle(k: int)
      requires Valid()
      requires |missiles.items| == 0 ==> 0 <= k < |ValidColumns(grid)|
      modifies missiles
      ensures Valid()
      ensures missiles.Shots() == old(missiles.Shots()) +
                (if |old(missiles.items)| == 0 then [EnemyShot(Shooter(grid, k))] else [])
      ensures |missiles.items| == |old(missiles.items)| + (if |old(missiles.items)| == 0 then 1 else 0)
      ensures forall m :: m in missiles.items ==> m in old(missiles.items) || fresh(m)
    {
      if |missiles.items| == 0 {
        var shooter := PickShooter(k);
        Shoot(shooter);
      }
    }

    /** The rest of `update` up to its recursive call: move the invader `nextInvader`
        finds and report `true`, or, when the sweep is exhausted, update the flags,
        reset the pointer to 54 and report `false`. */
    method MoveNext() returns (moved: bool)
      requires WellFormed(grid) && -1 <= tick <= LastTick && !Cleared(grid)
      modifies this
      ensures WellFormed(grid) && -1 <= tick <= LastTick
      ensures moved <==> NextLive(old(grid), old(right), old(tick)) >= 0
      ensures moved ==> State() == March(old(State()))
      ensures !moved ==> State() == Turned(old(State()))
      ensures !moved ==> grid == old(grid) && NextLive(grid, right, tick) >= 0 &&
                         March(State()) == March(old(State()))
    {
      var newX := -2;
      if right {
        newX := 2;
      }
      var invader := NextInvader();
      if invader.Live? {
        var moved' := if descend then invader.invader.Move(Y, 8) else invader.invader.Move(X, newX);
        var row, col := RowOf(tick), ColOf(tick, right);
        grid := grid[row := grid[row][col := Live(moved')]];
        tick := tick - 1;
        moved := true;
      } else {
        if !descend {
          var b := IsAtBoundary();
          if b {
            descend := true;
          }
        } else {
          descend := false;
          if right {
            right := false;
          } else {
            right := true;
          }
        }
        tick := 54;
        ClearedIffAllEmpty(grid);
        SweepFindsInvader(grid, right);
        moved := false;
      }
    }

    /** `checkForCollisions(pool)`: every missile of the opposing pool, in array order,
        against every cell. */
    method CheckForCollisions(pool: Pool)
      requires Valid() && pool.Valid()
      modifies this, pool
      ensures Valid() && pool.Valid()
      ensures tick == old(tick) && right == old(right) && descend == old(descend)
      ensures (grid, pool.Shots()) == Volley(old(grid), old(pool.Shots()))
      ensures forall m :: m in pool.items ==> m in old(pool.items)
    {
      ghost var g0, s0 := grid, pool.Shots();
      var i := 0;
      while i < |pool.items|
        invariant Valid() && pool.Valid()
        invariant tick == old(tick) && right == old(right) && descend == old(descend)
        invariant forall m :: m in pool.items ==> m in old(pool.items)
        invariant VolleyFrom(grid, pool.Shots(), i) == Volley(g0, s0)
        decreases |pool.items| - i
      {
        CollideAt(pool, i);
        i := i + 1;
      }
    }

    /** One iteration of that loop: the missile at index `i` against all 55 cells. */
    method CollideAt(pool: Pool, i: nat)
      requires Valid() && pool.Valid() && i < |pool.items|
      modifies this, pool
      ensures Valid() && pool.Valid()
      ensures tick == old(tick) && right == old(right) && descend == old(descend)
      ensures forall m :: m in pool.items ==> m in old(pool.items)
      ensures |pool.items| <= old(|pool.items|)
      ensures VolleyFrom(grid, pool.Shots(), i + 1) == VolleyFrom(old(grid), old(pool.Shots()), i)
    {
      var missile := pool.items[i];
      ghost var g0, before := grid, pool.items;
      StrikeAll(pool, missile);
      StrikeStep(g0, before, i, pool.items);
    }

    /** The two inner loops for one missile: every cell it overlaps is emptied, and the
        missile is removed from `pool` on the first hit (later removals find nothing). */
    method StrikeAll(pool: Pool, missile: Missile)
      requires WellFormed(grid) && Distinct(pool.items) && missile in pool.items
      modifies this, pool
      ensures grid == Struck(old(grid), missile.State())
      ensures pool.items == if AnyHit(old(grid), missile.State())
                            then RemoveElement(old(pool.items), missile) else old(pool.items)
      ensures tick == old(tick) && right == old(right) && descend == old(descend)
    {
      ghost var g0, before, m := grid, pool.items, missile.State();
      StruckUpToStart(g0, m);
      var row := |grid| - 1;
      while row >= 0
        invariant -1 <= row < Rows && ScanAt(g0, m, missile, before, grid, pool.items, row, Cols - 1)
        invariant tick == old(tick) && right == old(right) && descend == old(descend)
      {
        StrikeRow(pool, missile, row, g0, before);
        row := row - 1;
      }
      StruckUpToEnd(g0, m);
      if AnyHit(g0, m) {
        var r, c :| 0 <= r < Rows && 0 <= c < Cols && Hit(g0[r][c], m);
        assert Scanned(r, c, -1, Cols - 1);
      }
    }

    /** The innermost loop: row `row`, columns 10 down to 0. */
    method StrikeRow(pool: Pool, missile: Missile, row: int, ghost g0: Grid, ghost before: seq<Missile>)
      requires WellFormed(g0) && 0 <= row < Rows && Distinct(before) && missile in before
      requires ScanAt(g0, missile.State(), missile, before, grid, pool.items, row, Cols - 1)
      modifies this, pool
      ensures ScanAt(g0, missile.State(), missile, before, grid, pool.items, row - 1, Cols - 1)
      ensures tick == old(tick) && right == old(right) && descend == old(descend)
    {
      ghost var m := missile.State();
      var col := |grid[0]| - 1;
      while col >= 0
        invariant -1 <= col < Cols && ScanAt(g0, m, missile, before, grid, pool.items, row, col)
        invariant tick == old(tick) && right == old(right) && descend == old(descend)
      {
        StrikeCell(pool, missile, row, col, g0, before);
        col := col - 1;
      }
      HitScannedRowEnd(g0, m, row);
      StruckUpToRowEnd(g0, m, row);
    }

    /** The body of the inner loop: one cell tested against one missile. */
    method StrikeCell(pool: Pool, missile: Missile, row: int, col: int, ghost g0: Grid, ghost before: seq<Missile>)
      requires WellFormed(g0) && 0 <= row < Rows && 0 <= col < Cols && Distinct(before) && missile in before
      requires ScanAt(g0, missile.State(), missile, before, grid, pool.items, row, col)
      modifies this, pool
      ensures ScanAt(g0, missile.State(), missile, before, grid, pool.items, row, col - 1)
      ensures tick == old(tick) && right == old(right) && descend == old(descend)
    {
      ghost var m := missile.State();
      ghost var hitBefore := HitScanned(g0, m, row, col);
      StruckUpToStep(g0, m, row, col);
      if grid[row][col].Live? {
        var invader := grid[row][col].invader.HitBox();
        if Overlap(Box(missile.x, missile.y, missile.w, missile.h), invader) {
          pool.Remove(missile);
          grid := grid[row := grid[row][col := Empty]];
        }
      }
      if Hit(g0[row][col], m) {
        assert HitScanned(g0, m, row, col - 1);
        if hitBefore {
          RemoveDistinctAbsent(before, missile);
        }
      } else {
        HitScannedStep(g0, m, row, col);
      }
    }
  }

  /** The grid once the backwards scan has tested `m` against every cell before
      (row, col): each of those cells that `m` hits is emptied. */
  function StruckUpTo(g: Grid, m: MissileState, row: int, col: int): (r: Grid)
    requires WellFormed(g)
    ensures WellFormed(r)
  {
    seq(Rows, r requires 0 <= r < Rows =>
      seq(Cols, c requires 0 <= c < Cols =>
        if Scanned(r, c, row, col) && Hit(g[r][c], m) then Empty else g[r][c]))
  }

  /** Before the scan nothing has changed. */
  lemma StruckUpToStart(g: Grid, m: MissileState)
    requires WellFormed(g)
    ensures StruckUpTo(g, m, Rows - 1, Cols - 1) == g
  {
    forall r | 0 <= r < Rows ensures StruckUpTo(g, m, Rows - 1, Cols - 1)[r] == g[r] {
    }
  }

  /** After the scan every cell has been tested: the grid is `Struck`. */
  lemma StruckUpToEnd(g: Grid, m: MissileState)
    requires WellFormed(g)
    ensures StruckUpTo(g, m, -1, Cols - 1) == Struck(g, m)
  {
    forall r | 0 <= r < Rows ensures StruckUpTo(g, m, -1, Cols - 1)[r] == Struck(g, m)[r] {
    }
  }

  /** Testing cell (row, col) empties it exactly when `m` hits it; the cell is still as
      it was in `g` when it is tested. */
  lemma StruckUpToStep(g: Grid, m: MissileState, row: int, col: int)
    requires WellFormed(g) && 0 <= row < Rows && 0 <= col < Cols
    ensures StruckUpTo(g, m, row, col)[row][col] == g[row][col]
    ensures var before := StruckUpTo(g, m, row, col);
            StruckUpTo(g, m, row, col - 1) ==
              if Hit(g[row][col], m) then before[row := before[row][col := Empty]] else before
  {
    var before, after := StruckUpTo(g, m, row, col), StruckUpTo(g, m, row, col - 1);
    var expected := if Hit(g[row][col], m) then before[row := before[row][col := Empty]] else before;
    forall r | 0 <= r < Rows ensures after[r] == expected[r] {
      assert forall c :: 0 <= c < Cols ==> after[r][c] == expected[r][c];
    }
  }

  /** Finishing row `row` is the same as standing at the start of row `row - 1`. */
  lemma StruckUpToRowEnd(g: Grid, m: MissileState, row: int)
    requires WellFormed(g)
    ensures StruckUpTo(g, m, row, -1) == StruckUpTo(g, m, row - 1, Cols - 1)
  {
    forall r | 0 <= r < Rows ensures StruckUpTo(g, m, row, -1)[r] == StruckUpTo(g, m, row - 1, Cols - 1)[r] {
    }
  }

  /** Scanning a cell the missile does not hit adds no hit. */
  lemma HitScannedStep(g: Grid, m: MissileState, row: int, col: int)
    requires WellFormed(g) && 0 <= row < Rows && 0 <= col < Cols && !Hit(g[row][col], m)
    ensures HitScanned(g, m, row, col - 1) == HitScanned(g, m, row, col)
  {
  }

  /** Finishing row `row` is the same as standing at the start of row `row - 1`. */
  lemma HitScannedRowEnd(g: Grid, m: MissileState, row: int)
    requires WellFormed(g)
    ensures HitScanned(g, m, row, -1) == HitScanned(g, m, row - 1, Cols - 1)
  {
  }

  /** Testing the missile at index `i` of a distinct array against the whole grid
      takes the step that `VolleyFrom` takes at `i`, and only removes. */
  lemma StrikeStep(g0: Grid, before: seq<Missile>, i: nat, items: seq<Missile>)
    requires WellFormed(g0) && Distinct(before) && i < |before|
    requires items == if AnyHit(g0, before[i].State()) then RemoveElement(before, before[i]) else before
    ensures Distinct(items) && (forall x :: x in items ==> x in before) && |items| <= |before|
    ensures VolleyFrom(Struck(g0, before[i].State()), StatesOf(items), i + 1) ==
            VolleyFrom(g0, StatesOf(before), i)
  {
    RemoveDistinct(before, i);
    VolleyStep(g0, StatesOf(before), i);
    if AnyHit(g0, before[i].State()) {
      StatesOfSplice(before, i);
    }
  }

  /** Removing a missile a second time changes nothing. */
  lemma RemoveDistinctAbsent(s: seq<Missile>, e: Missile)
    requires Distinct(s) && e in s
    ensures RemoveElement(RemoveElement(s, e), e) == RemoveElement(s, e)
  {
  }
}
