/** The effect, on values, of `Invaders.checkForCollisions`: every incoming missile is
    tested against every cell of the grid; each cell it overlaps is emptied and the
    missile is spliced out of its array, which makes the iteration skip the missile
    that shifts into its slot. */
module Collisions {
  import opened Geometry
  import opened Projectiles
  import opened Swarm

  /** The test made for one cell and one missile: the cell is live and the missile's
      box overlaps the invader's hit box. */
  predicate Hit(cell: Cell, m: MissileState)
  {
    cell.Live? && Overlap(m.HitBox(), cell.invader.HitBox())
  }

  /** Some cell of the grid is hit by `m`. */
  predicate AnyHit(g: Grid, m: MissileState)
    requires WellFormed(g)
  {
    exists r, c :: 0 <= r < Rows && 0 <= c < Cols && Hit(g[r][c], m)
  }

  /** Some missile of `s` hits `cell`. */
  predicate HitBySome(cell: Cell, s: seq<MissileState>)
  {
    exists k :: 0 <= k < |s| && Hit(cell, s[k])
  }

  /** The grid once one missile has been tested against all 55 cells. The missile is
      not consumed by a hit, so every cell it overlaps is emptied, whatever the order
      of the scan. */
  function Struck(g: Grid, m: MissileState): (r: Grid)
    requires WellFormed(g)
    ensures WellFormed(r)
  {
    seq(Rows, row requires 0 <= row < Rows =>
      seq(Cols, col requires 0 <= col < Cols => if Hit(g[row][col], m) then Empty else g[row][col]))
  }

  /** Testing a missile leaves the grid unchanged exactly when it hits nothing. */
  lemma StruckUnchangedIffMiss(g: Grid, m: MissileState)
    requires WellFormed(g)
    ensures Struck(g, m) == g <==> !AnyHit(g, m)
  {
    var g' := Struck(g, m);
    if AnyHit(g, m) {
      var r, c :| 0 <= r < Rows && 0 <= c < Cols && Hit(g[r][c], m);
      assert g'[r][c] != g[r][c];
    } else {
      forall r | 0 <= r < Rows ensures g'[r] == g[r] {
        assert forall c :: 0 <= c < Cols ==> g'[r][c] == g[r][c];
      }
    }
  }

  /** A cell of the struck grid that a missile hits was already hit in the original
      grid: striking only empties cells. */
  lemma HitSurvivesStrike(g: Grid, a: MissileState, m: MissileState)
    requires WellFormed(g) && AnyHit(Struck(g, a), m)
    ensures AnyHit(g, m)
  {
  }

  /** The grid and the missiles after `for (const missile of missiles)` from index
      `i` on. A missile that hits something strikes the grid and is spliced out; the
      iteration then moves on to `i + 1`, past the missile that took its slot. */
  function VolleyFrom(g: Grid, s: seq<MissileState>, i: nat): (r: (Grid, seq<MissileState>))
    requires WellFormed(g)
    ensures WellFormed(r.0) && |r.1| <= |s|
    decreases |s| - i
  {
    if i >= |s| then (g, s)
    else if AnyHit(g, s[i]) then VolleyFrom(Struck(g, s[i]), s[..i] + s[i + 1..], i + 1)
    else VolleyFrom(g, s, i + 1)
  }

  /** `checkForCollisions(missiles)` on values. */
  function Volley(g: Grid, s: seq<MissileState>): (Grid, seq<MissileState>)
    requires WellFormed(g)
  {
    VolleyFrom(g, s, 0)
  }

  /** One step of the iteration: the missile at `i` strikes the grid, and is spliced
      out exactly when it hit something. */
  lemma VolleyStep(g: Grid, s: seq<MissileState>, i: nat)
    requires WellFormed(g) && i < |s|
    ensures VolleyFrom(g, s, i) ==
              VolleyFrom(Struck(g, s[i]), if AnyHit(g, s[i]) then s[..i] + s[i + 1..] else s, i + 1)
  {
    if !AnyHit(g, s[i]) {
      StruckUnchangedIffMiss(g, s[i]);
    }
  }

  lemma HitBySomeAfterSplice(cell: Cell, s: seq<MissileState>, i: nat)
    requires i < |s| && HitBySome(cell, s[..i] + s[i + 1..])
    ensures HitBySome(cell, s)
  {
  }

  /** No cell is ever revived or changed: each cell either stays as it was or is
      emptied, and then only because some incoming missile hit it. */
  lemma VolleyOnlyEmptiesHitCells(g: Grid, s: seq<MissileState>)
    requires WellFormed(g)
    ensures forall r, c :: 0 <= r < Rows && 0 <= c < Cols ==>
              Volley(g, s).0[r][c] == g[r][c] ||
              (Volley(g, s).0[r][c] == Empty && HitBySome(g[r][c], s))
  {
    VolleyFromOnlyEmptiesHitCells(g, s, 0);
  }

  lemma {:induction false} VolleyFromOnlyEmptiesHitCells(g: Grid, s: seq<MissileState>, i: nat)
    requires WellFormed(g)
    ensures forall r, c :: 0 <= r < Rows && 0 <= c < Cols ==>
              VolleyFrom(g, s, i).0[r][c] == g[r][c] ||
              (VolleyFrom(g, s, i).0[r][c] == Empty && HitBySome(g[r][c], s))
    decreases |s| - i
  {
    if i < |s| {
      if AnyHit(g, s[i]) {
        var g1, s1 := Struck(g, s[i]), s[..i] + s[i + 1..];
        VolleyFromOnlyEmptiesHitCells(g1, s1, i + 1);
        var g' := VolleyFrom(g1, s1, i + 1).0;
        forall r, c | 0 <= r < Rows && 0 <= c < Cols
          ensures g'[r][c] == g[r][c] || (g'[r][c] == Empty && HitBySome(g[r][c], s))
        {
          if g1[r][c] != g[r][c] {
            assert Hit(g[r][c], s[i]);
          } else if g'[r][c] != g[r][c] {
            HitBySomeAfterSplice(g[r][c], s, i);
          }
        }
      } else {
        VolleyFromOnlyEmptiesHitCells(g, s, i + 1);
      }
    }
  }

  /** Missiles are only ever removed, and only missiles that hit a live invader. */
  lemma VolleyConsumesOnlyHitters(g: Grid, s: seq<MissileState>)
    requires WellFormed(g)
    ensures multiset(Volley(g, s).1) <= multiset(s)
    ensures forall x :: x in multiset(s) - multiset(Volley(g, s).1) ==> AnyHit(g, x)
  {
    VolleyFromOnlyRemoves(g, s, 0);
    VolleyFromConsumesOnlyHitters(g, s, 0);
  }

  lemma {:induction false} VolleyFromOnlyRemoves(g: Grid, s: seq<MissileState>, i: nat)
    requires WellFormed(g)
    ensures multiset(VolleyFrom(g, s, i).1) <= multiset(s)
    decreases |s| - i
  {
    if i < |s| {
      if AnyHit(g, s[i]) {
        var s1 := s[..i] + s[i + 1..];
        VolleyFromOnlyRemoves(Struck(g, s[i]), s1, i + 1);
        assert s == s[..i] + [s[i]] + s[i + 1..];
        assert multiset(s) == multiset(s1) + multiset{s[i]};
      } else {
        VolleyFromOnlyRemoves(g, s, i + 1);
      }
    }
  }

  lemma {:induction false} VolleyFromConsumesOnlyHitters(g: Grid, s: seq<MissileState>, i: nat)
    requires WellFormed(g)
    ensures forall x :: x in multiset(s) - multiset(VolleyFrom(g, s, i).1) ==> AnyHit(g, x)
    decreases |s| - i
  {
    if i < |s| {
      if AnyHit(g, s[i]) {
        var g1, s1 := Struck(g, s[i]), s[..i] + s[i + 1..];
        VolleyFromConsumesOnlyHitters(g1, s1, i + 1);
        var rest := VolleyFrom(g1, s1, i + 1).1;
        assert s == s[..i] + [s[i]] + s[i + 1..];
        assert multiset(s) == multiset(s1) + multiset{s[i]};
        forall x | x in multiset(s) - multiset(rest) ensures AnyHit(g, x) {
          if x != s[i] {
            assert multiset(s)[x] == multiset(s1)[x];
            assert x in multiset(s1) - multiset(rest);
            HitSurvivesStrike(g, s[i], x);
          }
        }
      } else {
        VolleyFromConsumesOnlyHitters(g, s, i + 1);
      }
    }
  }

  /** When no missile hits anything, nothing changes. */
  lemma VolleyOfMisses(g: Grid, s: seq<MissileState>)
    requires WellFormed(g)
    requires forall k :: 0 <= k < |s| ==> !AnyHit(g, s[k])
    ensures Volley(g, s) == (g, s)
  {
    VolleyFromOfMisses(g, s, 0);
  }

  lemma {:induction false} VolleyFromOfMisses(g: Grid, s: seq<MissileState>, i: nat)
    requires WellFormed(g)
    requires forall k :: i <= k < |s| ==> !AnyHit(g, s[k])
    ensures VolleyFrom(g, s, i) == (g, s)
    decreases |s| - i
  {
    if i < |s| {
      VolleyFromOfMisses(g, s, i + 1);
    }
  }

  /** A single missile: it strikes every cell it overlaps and is consumed exactly when
      it hits something. */
  lemma VolleyOfOne(g: Grid, m: MissileState)
    requires WellFormed(g)
    ensures Volley(g, [m]) == (Struck(g, m), if AnyHit(g, m) then [] else [m])
  {
    StruckUnchangedIffMiss(g, m);
    if AnyHit(g, m) {
      assert [m][..0] + [m][1..] == [];
      assert VolleyFrom(g, [m], 0) == VolleyFrom(Struck(g, m), [], 1);
    } else {
      assert VolleyFrom(g, [m], 0) == VolleyFrom(g, [m], 1);
    }
  }

  /** The missile behind one that hits is not tested in that frame, even when it too
      overlaps an invader. */
  lemma VolleySkipsAfterHit(g: Grid, a: MissileState, b: MissileState)
    requires WellFormed(g) && AnyHit(g, a)
    ensures Volley(g, [a, b]) == (Struck(g, a), [b])
  {
    assert [a, b][..0] + [a, b][1..] == [b];
    assert VolleyFrom(g, [a, b], 0) == VolleyFrom(Struck(g, a), [b], 1);
  }
}
