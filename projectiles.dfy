/** Missiles and the arrays ("pools") that own them: a missile moves by its speed
    each frame and removes itself, by identity, from its owner once it leaves the
    field. */
module Projectiles {
  import opened Geometry

  /** The value of one missile: its position and signed vertical speed. Every
      missile is 1 unit wide and 4 units tall. */
  datatype MissileState = MissileState(x: int, y: int, speed: int) {
    function HitBox(): Box { Box(x, y, 1, 4) }

    /** The missile after one update. */
    function Moved(): MissileState { this.(y := y + speed) }
  }

  /** A missile is dropped once its y lies outside [0, GameHeight]. */
  predicate OutOfField(y: int)
  {
    y < 0 || y > GameHeight
  }

  predicate Distinct<T(==)>(s: seq<T>)
  {
    forall i, j :: 0 <= i < j < |s| ==> s[i] != s[j]
  }

  /** Position of the first occurrence of `e` in `s`, or -1 (the array `indexOf`). */
  function IndexOf<T(==)>(s: seq<T>, e: T): (i: int)
    ensures -1 <= i < |s|
    ensures i >= 0 ==> s[i] == e && e !in s[..i]
    ensures i == -1 <==> e !in s
  {
    if |s| == 0 then -1
    else if s[0] == e then 0
    else
      var j := IndexOf(s[1..], e);
      assert j >= 0 ==> s[..j + 1] == [s[0]] + s[1..][..j];
      if j == -1 then -1 else j + 1
  }

  /** The array after `removeElement(s, e)`: the first element identical to `e`
      is spliced out; nothing happens when `e` is absent. */
  function RemoveElement<T(==)>(s: seq<T>, e: T): (r: seq<T>)
    ensures e !in s ==> r == s
    ensures e in s ==> exists i :: 0 <= i < |s| && s[i] == e && e !in s[..i] && r == s[..i] + s[i + 1..]
    ensures e in s ==> |r| == |s| - 1 && multiset(r) == multiset(s) - multiset{e}
  {
    var i := IndexOf(s, e);
    if i > -1 then
      assert s == s[..i] + [s[i]] + s[i + 1..];
      s[..i] + s[i + 1..]
    else s
  }

  /** In an array without repeated elements, removing the element at `k` splices
      out exactly position `k`, and the element is gone afterwards. */
  lemma RemoveDistinct<T>(s: seq<T>, k: int)
    requires Distinct(s) && 0 <= k < |s|
    ensures RemoveElement(s, s[k]) == s[..k] + s[k + 1..]
    ensures Distinct(RemoveElement(s, s[k])) && s[k] !in RemoveElement(s, s[k])
  {
    var r := s[..k] + s[k + 1..];
    forall a, b | 0 <= a < b < |r| ensures r[a] != r[b] {
      var a', b' := if a < k then a else a + 1, if b < k then b else b + 1;
      assert r[a] == s[a'] && r[b] == s[b'];
    }
    forall j | 0 <= j < |r| ensures r[j] != s[k] {
      assert r[j] == s[if j < k then j else j + 1];
    }
  }

  /** The missile values held by a sequence of missile objects, in order. */
  function StatesOf(ms: seq<Missile>): (r: seq<MissileState>)
    reads ms
    ensures |r| == |ms|
    ensures forall k :: 0 <= k < |ms| ==> r[k] == ms[k].State()
  {
    seq(|ms|, k requires 0 <= k < |ms| reads ms => ms[k].State())
  }

  /** Splicing position `i` out of a missile array splices position `i` out of its
      values. */
  lemma StatesOfSplice(ms: seq<Missile>, i: int)
    requires 0 <= i < |ms|
    ensures StatesOf(ms[..i] + ms[i + 1..]) == StatesOf(ms)[..i] + StatesOf(ms)[i + 1..]
  {
  }

  /** One missile object. Only `y` ever changes; `owner` is the array it was
      pushed into and from which it removes itself. */
  class Missile {
    const x: int
    var y: int
    const speed: int
    const w: int := 1
    const h: int := 4
    const owner: Pool

    constructor (x: int, y: int, speed: int, owner: Pool)
      ensures this.x == x && this.y == y && this.speed == speed && this.owner == owner
    {
      this.x := x;
      this.y := y;
      this.speed := speed;
      this.owner := owner;
    }

    function State(): MissileState
      reads this
    {
      MissileState(x, y, speed)
    }

    /** Move by `speed`; once outside [0, GameHeight], splice this missile out of
        its owner array. */
    method Update()
      modifies this, owner
      ensures y == old(y) + speed
      ensures owner.items == if OutOfField(y) then RemoveElement(old(owner.items), this)
                             else old(owner.items)
    {
      y := y + speed;
      if OutOfField(y) {
        owner.Remove(this);
      }
    }
  }

  /** A missile array: the ship's or the formation's. */
  class Pool {
    var items: seq<Missile>

    /** No missile appears twice, and every missile names this pool as its owner. */
    ghost predicate Valid()
      reads this
    {
      Distinct(items) && forall m :: m in items ==> m.owner == this
    }

    constructor ()
      ensures Valid() && items == []
    {
      items := [];
    }

    /** The values of the live missiles, in array order. */
    function Shots(): seq<MissileState>
      reads this, items
    {
      StatesOf(items)
    }

    /** `removeElement(items, e)`. */
    method Remove(e: Missile)
      modifies this
      ensures items == RemoveElement(old(items), e)
    {
      items := RemoveElement(items, e);
    }

    /** `items.push(m)` for a missile created for this pool. */
    method Push(m: Missile)
      requires Valid() && m.owner == this && m !in items
      modifies this
      ensures Valid() && items == old(items) + [m]
    {
      items := items + [m];
    }
  }

  /** Two different valid arrays share no missile, since each missile names one owner. */
  lemma PoolsDisjoint(a: Pool, b: Pool)
    requires a.Valid() && b.Valid() && a != b
    ensures forall m :: m in a.items ==> m !in b.items
  {
  }

  /** An array none of whose missiles changed holds the same missile values. */
  twostate lemma ShotsUnchanged(p: Pool)
    requires unchanged(p) && forall m :: m in p.items ==> unchanged(m)
    ensures p.Shots() == old(p.Shots())
  {
    forall k | 0 <= k < |p.items| ensures p.items[k].State() == old(p.items[k].State()) {
      assert p.items[k] in p.items;
    }
  }

  /** The effect on the missile values of iterating `for (const m of pool) m.update()`
      from index `i` on. The iteration is index-based and the array is spliced during
      it: when the missile at `i` leaves the field it is removed, the next missile
      shifts into slot `i`, and the iteration moves on to `i + 1` without updating it. */
  function FlyFrom(s: seq<MissileState>, i: nat): (r: seq<MissileState>)
    ensures |r| <= |s|
    decreases |s| - i
  {
    if i >= |s| then s
    else if OutOfField(s[i].Moved().y) then FlyFrom(s[..i] + s[i + 1..], i + 1)
    else FlyFrom(s[i := s[i].Moved()], i + 1)
  }

  /** One frame's update of a whole pool. */
  function Fly(s: seq<MissileState>): seq<MissileState>
  {
    FlyFrom(s, 0)
  }

  /** When no missile leaves the field, every missile moves exactly once and none is
      dropped. */
  lemma {:induction false} FlyWithinField(s: seq<MissileState>)
    requires forall k :: 0 <= k < |s| ==> !OutOfField(s[k].Moved().y)
    ensures Fly(s) == seq(|s|, k requires 0 <= k < |s| => s[k].Moved())
  {
    FlyFromWithinField(s, 0);
    assert s[..0] == [];
  }

  lemma {:induction false} FlyFromWithinField(s: seq<MissileState>, i: nat)
    requires i <= |s|
    requires forall k :: i <= k < |s| ==> !OutOfField(s[k].Moved().y)
    ensures FlyFrom(s, i) == s[..i] + seq(|s| - i, k requires 0 <= k < |s| - i => s[i + k].Moved())
    decreases |s| - i
  {
    if i < |s| {
      var s' := s[i := s[i].Moved()];
      FlyFromWithinField(s', i + 1);
      assert s'[..i + 1] == s[..i] + [s[i].Moved()];
    }
  }

  /** The missile that shifts into the slot of a missile that has just left the
      field is not updated in that frame. */
  lemma FlySkipsAfterExit(a: MissileState, b: MissileState)
    requires OutOfField(a.Moved().y)
    ensures Fly([a, b]) == [b]
  {
    assert [a, b][..0] + [a, b][1..] == [b];
    assert FlyFrom([a, b], 0) == FlyFrom([b], 1);
  }

  /** The iteration never touches the slots before `i`. */
  lemma {:induction false} FlyFromPrefix(s: seq<MissileState>, i: nat, j: nat)
    requires j < i && j < |s|
    ensures j < |FlyFrom(s, i)| && FlyFrom(s, i)[j] == s[j]
    decreases |s| - i
  {
    if i < |s| {
      var s' := if OutOfField(s[i].Moved().y) then s[..i] + s[i + 1..] else s[i := s[i].Moved()];
      assert FlyFrom(s, i) == FlyFrom(s', i + 1);
      assert j < |s'| && s'[j] == s[j];
      FlyFromPrefix(s', i + 1, j);
    } else {
      assert FlyFrom(s, i) == s;
    }
  }

  /** A missile that stays inside the field survives the pass: moved, or unmoved when
      it was the one shifted into the slot of a missile that had just left. */
  lemma FlyKeepsStayers(s: seq<MissileState>, k: int)
    requires 0 <= k < |s| && !OutOfField(s[k].Moved().y)
    ensures s[k].Moved() in Fly(s) || s[k] in Fly(s)
  {
    FlyFromKeepsStayers(s, 0, k);
  }

  lemma {:induction false} FlyFromKeepsStayers(s: seq<MissileState>, i: nat, k: int)
    requires i <= k < |s| && !OutOfField(s[k].Moved().y)
    ensures s[k].Moved() in FlyFrom(s, i) || s[k] in FlyFrom(s, i)
    decreases |s| - i
  {
    if OutOfField(s[i].Moved().y) {
      var s' := s[..i] + s[i + 1..];
      assert s'[k - 1] == s[k];
      if k == i + 1 {
        FlyFromPrefix(s', i + 1, i);
        assert FlyFrom(s, i) == FlyFrom(s', i + 1);
        assert FlyFrom(s, i)[i] == s[k];
      } else {
        FlyFromKeepsStayers(s', i + 1, k - 1);
      }
    } else {
      var s' := s[i := s[i].Moved()];
      if k == i {
        FlyFromPrefix(s', i + 1, i);
        assert FlyFrom(s, i) == FlyFrom(s', i + 1);
        assert FlyFrom(s, i)[i] == s[k].Moved();
      } else {
        FlyFromKeepsStayers(s', i + 1, k);
      }
    }
  }

  /** `for (const m of pool) m.update()`: every missile visited is moved and, once out
      of the field, removed from the pool. */
  method AdvanceAll(pool: Pool)
    requires pool.Valid()
    modifies pool, (set m: Missile | m in pool.items)
    ensures pool.Valid()
    ensures pool.Shots() == Fly(old(pool.Shots()))
    ensures forall m :: m in pool.items ==> m in old(pool.items)
  {
    ghost var s0 := pool.Shots();
    var i := 0;
    while i < |pool.items|
      invariant pool.Valid()
      invariant forall m :: m in pool.items ==> m in old(pool.items)
      invariant FlyFrom(pool.Shots(), i) == Fly(s0)
      decreases |pool.items| - i
    {
      UpdateAt(pool, i);
      i := i + 1;
    }
  }

  /** One iteration of that loop: `pool.items[i].update()`. */
  method UpdateAt(pool: Pool, i: nat)
    requires pool.Valid() && i < |pool.items|
    modifies pool, pool.items[i]
    ensures pool.Valid()
    ensures forall m :: m in pool.items ==> m in old(pool.items)
    ensures |pool.items| <= old(|pool.items|)
    ensures FlyFrom(pool.Shots(), i + 1) == FlyFrom(old(pool.Shots()), i)
  {
    var m := pool.items[i];
    ghost var before := pool.items;
    ghost var s := pool.Shots();
    RemoveDistinct(before, i);
    m.Update();
    forall k | 0 <= k < |before| && k != i ensures before[k].State() == s[k] {
      assert before[k] != m;
    }
    OneMoved(before, i, s);
    ghost var moved := s[i := s[i].Moved()];
    if OutOfField(m.y) {
      StatesOfSplice(before, i);
      assert moved[..i] + moved[i + 1..] == s[..i] + s[i + 1..];
      SpliceKeeps(before, i);
    } else {
      assert pool.items == before;
    }
  }

  lemma SpliceKeeps<T>(s: seq<T>, i: nat)
    requires i < |s|
    ensures forall x :: x in s[..i] + s[i + 1..] ==> x in s
  {
  }

  /** After `before[i]` has moved and nothing else in `before` has changed, the
      states of `before` are the old ones, `s`, with entry `i` moved. */
  lemma OneMoved(before: seq<Missile>, i: nat, s: seq<MissileState>)
    requires i < |before| == |s|
    requires before[i].State() == s[i].Moved()
    requires forall k :: 0 <= k < |before| && k != i ==> before[k].State() == s[k]
    ensures StatesOf(before) == s[i := s[i].Moved()]
  {
  }
}
