/** The player's ship: a position clamped to the field, a missile array limited by a
    capacity and a cooldown counter, and the test that consumes enemy missiles
    striking it. */
module Player {
  import opened Geometry
  import opened Projectiles

  /** The fixed row of the ship and the size of its hit box. */
  const ShipY: int := 208
  const ShipW: int := 16
  const ShipH: int := 8
  /** The largest x `move` allows: the field width less the 15 units the ship is drawn with. */
  const RightLimit: int := GameWidth - 15

  datatype Direction = Left | Right

  /** The ship's scalar state: position, the stats an upgrade may change, and the
      cooldown counter. */
  datatype ShipState = ShipState(x: int, speed: int, missileCapacity: int, missileSpeed: int,
                                 rateOfFire: int, canShoot: int)

  function ShipBox(x: int): Box
  {
    Box(x, ShipY, ShipW, ShipH)
  }

  /** `x` after `move(direction)`: step by `speed`, then clamp at the edge moved towards. */
  function Stepped(x: int, speed: int, dir: Direction): int
  {
    match dir
    case Left => if x - speed < 0 then 0 else x - speed
    case Right => if x + speed > RightLimit then RightLimit else x + speed
  }

  /** With a non-negative speed, a ship inside [0, 209] stays inside, and moving never
      overshoots: the ship ends between where it was and the edge it moved towards. */
  lemma MoveStaysInField(x: int, speed: int, dir: Direction)
    requires 0 <= x <= RightLimit && speed >= 0
    ensures 0 <= Stepped(x, speed, dir) <= RightLimit
    ensures dir == Left ==> Stepped(x, speed, dir) <= x
    ensures dir == Right ==> x <= Stepped(x, speed, dir)
  {
  }

  /** Away from the edges, a move right undoes a move left and vice versa. */
  lemma MovesCancel(x: int, speed: int)
    requires speed >= 0 && speed <= x <= RightLimit - speed
    ensures Stepped(Stepped(x, speed, Left), speed, Right) == x
    ensures Stepped(Stepped(x, speed, Right), speed, Left) == x
  {
  }

  /** At an edge, moving further into it changes nothing. */
  lemma EdgesHold(speed: int)
    requires speed >= 0
    ensures Stepped(0, speed, Left) == 0 && Stepped(RightLimit, speed, Right) == RightLimit
  {
  }

  /** `shoot` fires when fewer than `missileCapacity` missiles are live and the
      cooldown has run out. */
  predicate CanFire(s: ShipState, live: int)
  {
    live < s.missileCapacity && s.canShoot <= 0
  }

  /** The missile `shoot` fires: from the ship's muzzle, moving up at `missileSpeed`. */
  function Muzzle(s: ShipState): MissileState
  {
    MissileState(s.x + 7, ShipY - 4, -s.missileSpeed)
  }

  /** The ship and its missile values after `shoot()`. */
  function Fired(s: ShipState, shots: seq<MissileState>): (ShipState, seq<MissileState>)
  {
    if CanFire(s, |shots|) then (s.(canShoot := s.rateOfFire), shots + [Muzzle(s)])
    else (s, shots)
  }

  /** `shoot` adds at most one missile, and only below capacity, so it never takes the
      array beyond `missileCapacity`; it changes nothing but the cooldown besides. */
  lemma FiredWithinCapacity(s: ShipState, shots: seq<MissileState>)
    ensures var (s', shots') := Fired(s, shots);
            shots'[..|shots|] == shots && |shots| <= |shots'| <= |shots| + 1 &&
            (|shots'| == |shots| + 1 <==> CanFire(s, |shots|)) &&
            (|shots| <= s.missileCapacity ==> |shots'| <= s.missileCapacity) &&
            s'.(canShoot := s.canShoot) == s
  {
  }

  /** The ship after `n` frames of `canShoot--`. */
  function Countdown(s: ShipState, n: int): ShipState
  {
    s.(canShoot := s.canShoot - n)
  }

  /** Once fired, the ship cannot fire again until `rateOfFire` frames have counted the
      cooldown down to zero, however few missiles are live by then. */
  lemma FiredStartsCooldown(s: ShipState, shots: seq<MissileState>)
    requires CanFire(s, |shots|) && s.rateOfFire > 0
    ensures !CanFire(Fired(s, shots).0, |Fired(s, shots).1|)
    ensures forall n, live :: 0 <= n < s.rateOfFire ==> !CanFire(Countdown(Fired(s, shots).0, n), live)
    ensures forall live :: live < s.missileCapacity ==>
              CanFire(Countdown(Fired(s, shots).0, s.rateOfFire), live)
  {
  }

  /** The enemy missiles left after `checkForCollisions(missiles)` from index `i` on:
      a missile overlapping the ship is spliced out, and the missile that shifts into
      its slot is not tested in that frame. */
  function ShipHitsFrom(ship: Box, s: seq<MissileState>, i: nat): (r: seq<MissileState>)
    ensures |r| <= |s|
    decreases |s| - i
  {
    if i >= |s| then s
    else if Overlap(s[i].HitBox(), ship) then ShipHitsFrom(ship, s[..i] + s[i + 1..], i + 1)
    else ShipHitsFrom(ship, s, i + 1)
  }

  function ShipHits(ship: Box, s: seq<MissileState>): seq<MissileState>
  {
    ShipHitsFrom(ship, s, 0)
  }

  /** Only missiles that overlap the ship are removed, each at most as often as it
      occurs. */
  lemma ShipHitsRemoveOnlyOverlapping(ship: Box, s: seq<MissileState>)
    ensures multiset(ShipHits(ship, s)) <= multiset(s)
    ensures forall x :: x in multiset(s) - multiset(ShipHits(ship, s)) ==> Overlap(x.HitBox(), ship)
  {
    ShipHitsFromOnlyRemoves(ship, s, 0);
    ShipHitsFromRemoveOnlyOverlapping(ship, s, 0);
  }

  lemma {:induction false} ShipHitsFromOnlyRemoves(ship: Box, s: seq<MissileState>, i: nat)
    ensures multiset(ShipHitsFrom(ship, s, i)) <= multiset(s)
    decreases |s| - i
  {
    if i < |s| {
      if Overlap(s[i].HitBox(), ship) {
        var s1 := s[..i] + s[i + 1..];
        ShipHitsFromOnlyRemoves(ship, s1, i + 1);
        assert s == s[..i] + [s[i]] + s[i + 1..];
        assert multiset(s) == multiset(s1) + multiset{s[i]};
      } else {
        ShipHitsFromOnlyRemoves(ship, s, i + 1);
      }
    }
  }

  lemma {:induction false} ShipHitsFromRemoveOnlyOverlapping(ship: Box, s: seq<MissileState>, i: nat)
    ensures forall x :: x in multiset(s) - multiset(ShipHitsFrom(ship, s, i)) ==> Overlap(x.HitBox(), ship)
    decreases |s| - i
  {
    if i < |s| {
      if Overlap(s[i].HitBox(), ship) {
        var s1 := s[..i] + s[i + 1..];
        ShipHitsFromRemoveOnlyOverlapping(ship, s1, i + 1);
        assert s == s[..i] + [s[i]] + s[i + 1..];
        assert multiset(s) == multiset(s1) + multiset{s[i]};
        var rest := ShipHitsFrom(ship, s1, i + 1);
        forall x | x in multiset(s) - multiset(rest) ensures Overlap(x.HitBox(), ship) {
          if x != s[i] {
            assert multiset(s)[x] == multiset(s1)[x];
          }
        }
      } else {
        ShipHitsFromRemoveOnlyOverlapping(ship, s, i + 1);
      }
    }
  }

  /** Missiles that miss the ship are all kept, in order. */
  lemma ShipHitsOfMisses(ship: Box, s: seq<MissileState>)
    requires forall k :: 0 <= k < |s| ==> !Overlap(s[k].HitBox(), ship)
    ensures ShipHits(ship, s) == s
  {
    ShipHitsFromOfMisses(ship, s, 0);
  }

  lemma {:induction false} ShipHitsFromOfMisses(ship: Box, s: seq<MissileState>, i: nat)
    requires forall k :: i <= k < |s| ==> !Overlap(s[k].HitBox(), ship)
    ensures ShipHitsFrom(ship, s, i) == s
    decreases |s| - i
  {
    if i < |s| {
      ShipHitsFromOfMisses(ship, s, i + 1);
    }
  }

  /** When the first of two missiles strikes the ship, the second is not tested in that
      frame and survives whether it overlaps the ship or not. */
  lemma ShipHitsSkipsAfterHit(ship: Box, a: MissileState, b: MissileState)
    requires Overlap(a.HitBox(), ship)
    ensures ShipHits(ship, [a, b]) == [b]
  {
    assert [a, b][..0] + [a, b][1..] == [b];
    assert ShipHitsFrom(ship, [a, b], 0) == ShipHitsFrom(ship, [b], 1);
  }

  class Ship {
    var x: int
    const y: int := ShipY
    const w: int := ShipW
    const h: int := ShipH
    /** Set once and never changed by any operation. */
    const health: int := 3
    var speed: int
    const missiles: Pool
    var missileCapacity: int
    var missileSpeed: int
    var rateOfFire: int
    var canShoot: int

    ghost predicate Valid()
      reads this, missiles
    {
      missiles.Valid()
    }

    function State(): ShipState
      reads this
    {
      ShipState(x, speed, missileCapacity, missileSpeed, rateOfFire, canShoot)
    }

    /** `new Ship(x)` with the default stats. */
    constructor (x: int)
      ensures Valid() && fresh(missiles) && missiles.items == []
      ensures State() == ShipState(x, 1, 1, 3, 15, 0)
    {
      this.x := x;
      speed := 1;
      missiles := new Pool();
      missileCapacity := 1;
      missileSpeed := 3;
      rateOfFire := 15;
      canShoot := 0;
    }

    /** `move(direction)`. */
    method Move(dir: Direction)
      modifies this
      ensures State() == old(State()).(x := Stepped(old(x), speed, dir))
    {
      if dir == Left {
        x := x - speed;
        if x < 0 {
          x := 0;
        }
      }
      if dir == Right {
        x := x + speed;
        if x > GameWidth - 15 {
          x := GameWidth - 15;
        }
      }
    }

    /** `shoot()`. */
    method Shoot()
      requires Valid()
      modifies this, missiles
      ensures Valid()
      ensures (State(), missiles.Shots()) == Fired(old(State()), old(missiles.Shots()))
      ensures forall m :: m in missiles.items ==> m in old(missiles.items) || fresh(m)
    {
      if |missiles.items| < missileCapacity {
        if canShoot <= 0 {
          var m := new Missile(x + 7, y - 4, -missileSpeed, missiles);
          missiles.Push(m);
          assert missiles.items[..|missiles.items| - 1] == old(missiles.items);
          assert missiles.Shots() == old(missiles.Shots()) + [Muzzle(old(State()))];
          canShoot := rateOfFire;
        }
      }
    }

    /** `checkForCollisions(missiles)` against the opposing array `pool`. */
    method CheckForCollisions(pool: Pool)
      requires pool.Valid()
      modifies pool
      ensures pool.Valid()
      ensures pool.Shots() == ShipHits(ShipBox(x), old(pool.Shots()))
      ensures forall m :: m in pool.items ==> m in old(pool.items)
    {
      ghost var s0 := pool.Shots();
      var i := 0;
      while i < |pool.items|
        invariant pool.Valid()
        invariant forall m :: m in pool.items ==> m in old(pool.items)
        invariant ShipHitsFrom(ShipBox(x), pool.Shots(), i) == ShipHits(ShipBox(x), s0)
        decreases |pool.items| - i
      {
        CollideAt(pool, i);
        i := i + 1;
      }
    }

    /** One iteration of that loop: the missile at index `i` against the ship. */
    method CollideAt(pool: Pool, i: nat)
      requires pool.Valid() && i < |pool.items|
      modifies pool
      ensures pool.Valid()
      ensures forall m :: m in pool.items ==> m in old(pool.items)
      ensures |pool.items| <= old(|pool.items|)
      ensures ShipHitsFrom(ShipBox(x), pool.Shots(), i + 1) == ShipHitsFrom(ShipBox(x), old(pool.Shots()), i)
    {
      var missile := pool.items[i];
      ghost var before, s := pool.items, pool.Shots();
      if Overlap(Box(missile.x, missile.y, missile.w, missile.h), Box(x, y, w, h)) {
        RemoveDistinct(before, i);
        pool.Remove(missile);
        StatesOfSplice(before, i);
        assert ShipHitsFrom(ShipBox(x), s, i) == ShipHitsFrom(ShipBox(x), s[..i] + s[i + 1..], i + 1);
      }
    }
  }
}
