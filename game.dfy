/** One frame of the game logic: the ship's cooldown, the player's input, the ship's
    missiles, the enemy missiles striking the ship, and then, while any invader is
    left, the formation's move, its missiles and the ship's missiles striking it. */
module Game {
  import opened Projectiles
  import opened Swarm
  import opened Collisions
  import opened Formation
  import opened Player

  /** Everything a frame reads and writes, as values. */
  datatype World = World(ship: ShipState, shipShots: seq<MissileState>,
                         formation: FormationState, enemyShots: seq<MissileState>)

  predicate Consistent(w: World)
  {
    Ready(w.formation)
  }

  /** The shooter pick `k` is usable whenever the formation will fire from it. */
  predicate PickFits(w: World, k: int)
    requires Consistent(w)
  {
    !Cleared(w.formation.grid) ==> 0 <= k < |ValidColumns(w.formation.grid)|
  }

  /** The ship's half of a frame: `canShoot--`, then left, right and fire as pressed,
      then every ship missile moves, then the enemy missiles are tested against the
      ship. */
  function ShipPhase(w: World, left: bool, right: bool, fire: bool): (r: World)
    ensures r.formation == w.formation
  {
    var s1 := Countdown(w.ship, 1);
    var s2 := if left then s1.(x := Stepped(s1.x, s1.speed, Left)) else s1;
    var s3 := if right then s2.(x := Stepped(s2.x, s2.speed, Right)) else s2;
    var (s4, shots) := if fire then Fired(s3, w.shipShots) else (s3, w.shipShots);
    World(s4, Fly(shots), w.formation, ShipHits(ShipBox(s4.x), w.enemyShots))
  }

  /** The formation's half: nothing once it is cleared; otherwise `update` (firing
      first from the picked shooter when no enemy missile is live), then every enemy
      missile moves, then the ship's missiles are tested against the grid. */
  function FormationPhase(w: World, k: int): (r: World)
    requires Consistent(w) && PickFits(w, k)
    ensures Consistent(r) && r.ship == w.ship
  {
    if Cleared(w.formation.grid) then w
    else
      var enemy := w.enemyShots + (if |w.enemyShots| == 0 then [EnemyShot(Shooter(w.formation.grid, k))] else []);
      var f := March(w.formation);
      var (g, shots) := Volley(f.grid, w.shipShots);
      World(w.ship, shots, f.(grid := g), Fly(enemy))
  }

  /** One call of the frame callback's game logic. */
  function Frame(w: World, left: bool, right: bool, fire: bool, k: int): World
    requires Consistent(w) && PickFits(w, k)
  {
    FormationPhase(ShipPhase(w, left, right, fire), k)
  }

  /** The formation never has more than one missile in flight. */
  lemma FrameKeepsOneEnemyMissile(w: World, left: bool, right: bool, fire: bool, k: int)
    requires Consistent(w) && PickFits(w, k) && |w.enemyShots| <= 1
    ensures |Frame(w, left, right, fire, k).enemyShots| <= 1
  {
  }

  /** The ship never has more missiles in flight than its capacity. */
  lemma FrameKeepsShipCapacity(w: World, left: bool, right: bool, fire: bool, k: int)
    requires Consistent(w) && PickFits(w, k) && |w.shipShots| <= w.ship.missileCapacity
    ensures |Frame(w, left, right, fire, k).shipShots| <= w.ship.missileCapacity
  {
  }

  /** With a non-negative speed, the ship stays inside [0, 209]. */
  lemma FrameKeepsShipInField(w: World, left: bool, right: bool, fire: bool, k: int)
    requires Consistent(w) && PickFits(w, k)
    requires 0 <= w.ship.x <= RightLimit && w.ship.speed >= 0
    ensures 0 <= Frame(w, left, right, fire, k).ship.x <= RightLimit
  {
  }

  /** A destroyed invader never comes back: cells empty before a frame are empty after
      it, and once the formation is cleared the grid no longer changes. */
  lemma FrameNeverRevives(w: World, left: bool, right: bool, fire: bool, k: int)
    requires Consistent(w) && PickFits(w, k)
    ensures var g, g' := w.formation.grid, Frame(w, left, right, fire, k).formation.grid;
            forall r, c :: 0 <= r < Rows && 0 <= c < Cols && g[r][c].Empty? ==> g'[r][c].Empty?
    ensures Cleared(w.formation.grid) ==> Frame(w, left, right, fire, k).formation == w.formation
  {
    var w1 := ShipPhase(w, left, right, fire);
    if !Cleared(w.formation.grid) {
      var f := March(w.formation);
      MarchKeepsCells(w.formation);
      VolleyOnlyEmptiesHitCells(f.grid, w1.shipShots);
    }
  }

  /** The whole game: the ship and the formation, each with its missile array. */
  class Game {
    const ship: Ship
    const invaders: Invaders

    /** Each array is valid and they are two different arrays, so no missile belongs
        to both. */
    ghost predicate Valid()
      reads this, ship, invaders, ship.missiles, invaders.missiles
    {
      ship.Valid() && invaders.Valid() && ship.missiles != invaders.missiles
    }

    function Snapshot(): World
      reads this, ship, invaders, ship.missiles, invaders.missiles, (set m: Missile | m in ship.missiles.items), (set m: Missile | m in invaders.missiles.items)
    {
      World(ship.State(), ship.missiles.Shots(), invaders.State(), invaders.missiles.Shots())
    }

    constructor (shipX: int, startY: int)
      ensures Valid() && fresh(ship) && fresh(invaders) && fresh(ship.missiles) && fresh(invaders.missiles)
      ensures Snapshot().shipShots == [] && Snapshot().enemyShots == []
      ensures Snapshot().ship == ShipState(shipX, 1, 1, 3, 15, 0)
      ensures Snapshot().formation.tick == LastTick && Snapshot().formation.right && !Snapshot().formation.descend
      ensures WellFormed(Snapshot().formation.grid)
      ensures forall r, c :: 0 <= r < Rows && 0 <= c < Cols ==>
                Snapshot().formation.grid[r][c] == Live(Invader(16 + 16 * c, startY + 16 * r, RowWidth(r), 8))
    {
      ship := new Ship(shipX);
      invaders := new Invaders(startY);
    }

    /** The game logic of one frame, with the keys held as `left`, `right` and `fire`
        and the shooter pick as `k`. */
    method Step(left: bool, right: bool, fire: bool, k: int)
      requires Valid() && PickFits(Snapshot(), k)
      modifies ship, invaders, ship.missiles, invaders.missiles, (set m: Missile | m in ship.missiles.items), (set m: Missile | m in invaders.missiles.items)
      ensures Valid()
      ensures Snapshot() == Frame(old(Snapshot()), left, right, fire, k)
    {
      ghost var w0 := Snapshot();
      ShipStep(left, right, fire);
      assert Snapshot() == ShipPhase(w0, left, right, fire);
      var cleared := invaders.IsCleared();
      if !cleared {
        FormationStep(k);
      }
    }

    /** The ship's half of the frame. */
    method ShipStep(left: bool, right: bool, fire: bool)
      requires Valid()
      modifies ship, ship.missiles, (set m: Missile | m in ship.missiles.items), invaders.missiles
      ensures Valid()
      ensures invaders.State() == old(invaders.State())
      ensures forall m :: m in invaders.missiles.items ==> m in old(invaders.missiles.items)
      ensures Snapshot() == ShipPhase(old(Snapshot()), left, right, fire)
    {
      ShipControls(left, right, fire);
      label controlled:
      PoolsDisjoint(invaders.missiles, ship.missiles);
      AdvanceAll(ship.missiles);
      ShotsUnchanged@controlled(invaders.missiles);
      label advanced:
      PoolsDisjoint(ship.missiles, invaders.missiles);
      ship.CheckForCollisions(invaders.missiles);
      ShotsUnchanged@advanced(ship.missiles);
    }

    /** `canShoot--` and the player's input. */
    method ShipControls(left: bool, right: bool, fire: bool)
      requires Valid()
      modifies ship, ship.missiles
      ensures Valid()
      ensures forall m :: m in ship.missiles.items ==> m in old(ship.missiles.items) || fresh(m)
      ensures var w0 := old(Snapshot());
              var s1 := Countdown(w0.ship, 1);
              var s2 := if left then s1.(x := Stepped(s1.x, s1.speed, Left)) else s1;
              var s3 := if right then s2.(x := Stepped(s2.x, s2.speed, Right)) else s2;
              (ship.State(), ship.missiles.Shots()) ==
                (if fire then Fired(s3, w0.shipShots) else (s3, w0.shipShots))
    {
      ship.canShoot := ship.canShoot - 1;
      if left {
        ship.Move(Left);
      }
      if right {
        ship.Move(Right);
      }
      if fire {
        ship.Shoot();
      }
    }

    /** The formation's half of the frame, when it is not cleared. */
    method FormationStep(k: int)
      requires Valid() && !Cleared(invaders.grid) && 0 <= k < |ValidColumns(invaders.grid)|
      modifies invaders, invaders.missiles, (set m: Missile | m in invaders.missiles.items), ship.missiles
      ensures Valid()
      ensures ship.State() == old(ship.State())
      ensures Snapshot() == FormationPhase(old(Snapshot()), k)
    {
      EnemyMove(k);
      label moved:
      PoolsDisjoint(ship.missiles, invaders.missiles);
      invaders.CheckForCollisions(ship.missiles);
      ShotsUnchanged@moved(invaders.missiles);
    }

    /** `invaders.update()` followed by updating every formation missile in a `for..of`
        loop. */
    method EnemyMove(k: int)
      requires Valid() && !Cleared(invaders.grid) && 0 <= k < |ValidColumns(invaders.grid)|
      modifies invaders, invaders.missiles, (set m: Missile | m in invaders.missiles.items)
      ensures Valid()
      ensures invaders.State() == March(old(invaders.State()))
      ensures var s := old(invaders.missiles.Shots());
              invaders.missiles.Shots() ==
                Fly(s + (if |s| == 0 then [EnemyShot(Shooter(old(invaders.grid), k))] else []))
      ensures ship.missiles.Shots() == old(ship.missiles.Shots())
    {
      PoolsDisjoint(invaders.missiles, ship.missiles);
      invaders.Update(k);
      PoolsDisjoint(invaders.missiles, ship.missiles);
      AdvanceAll(invaders.missiles);
      ShotsUnchanged(ship.missiles);
    }
  }
}
