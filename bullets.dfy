/**
 * Bullets: one slot of the fixed pool, what one tick does to it, and the
 * arithmetic of the round-robin cursor that picks the slot a shot reuses.
 */
module Bullets {
  import opened Results
  import opened Directions
  import opened Grid

  /** Number of slots in the bullet pool, allocated once. */
  const PoolSize: nat := 100

  datatype Bullet = Bullet(active: bool, position: Position, direction: Direction)

  /**
   * The value every pool slot starts with (`Bullet::new`): active, in the
   * top-left cell, heading up (its direction is parsed from "up").
   */
  function NewBullet(): (b: Bullet)
    ensures b.active && b.position == Position(0, 0) && b.direction == Up
  {
    Bullet(true, Position(0, 0), Parse("up").value)
  }

  /** Index of the cell under an in-grid bullet (`get_bullet_index`). */
  function BulletIndex(m: Map, b: Bullet): (i: nat)
    requires m.Valid() && m.Contains(b.position)
    ensures i < m.width * m.height && PositionOfIndex(m, i) == b.position
  {
    Index(m, b.position.x, b.position.y)
  }

  /**
   * What one tick does to a bullet. An inactive bullet is untouched. An
   * active one moves one cell in its direction; if clamping leaves it where
   * it was (it is at the edge), it is deactivated in place instead. No
   * bullet ever leaves the grid.
   */
  function Advance(m: Map, b: Bullet): (r: Bullet)
    requires m.Valid() && m.Contains(b.position)
    ensures m.Contains(r.position) && r.direction == b.direction
    ensures !b.active ==> r == b
    ensures b.active ==> (r.active <==> !AtEdge(m, b.position, b.direction))
    ensures b.active && !r.active ==> r.position == b.position
    ensures r.active ==>
      r.position.x == b.position.x + DeltaX(b.direction) && r.position.y == b.position.y + DeltaY(b.direction)
  {
    if !b.active then b
    else
      InGridStepDefined(m, b.position, b.direction);
      var next := Step(m, b.position, b.direction);
      if next == b.position then b.(active := false) else b.(position := next)
  }

  /**
   * A slot that was never fired holds a bullet at the top edge heading up,
   * so the first tick deactivates it where it stands.
   */
  lemma NewBulletRetires(m: Map)
    requires m.Valid()
    ensures Advance(m, NewBullet()) == NewBullet().(active := false)
  {
  }

  /** The bullet after `n` ticks. */
  function AdvanceTimes(m: Map, b: Bullet, n: nat): (r: Bullet)
    requires m.Valid() && m.Contains(b.position)
    ensures m.Contains(r.position)
  {
    if n == 0 then b else Advance(m, AdvanceTimes(m, b, n - 1))
  }

  /** How many cells an in-grid position is from the edge it faces. */
  function DistanceToEdge(m: Map, p: Position, d: Direction): (k: nat)
    requires m.Valid() && m.Contains(p)
    ensures k == 0 <==> AtEdge(m, p, d)
  {
    match d
    case Up => p.y
    case Right => m.width - 1 - p.x
    case Down => m.height - 1 - p.y
    case Left => p.x
  }

  /** One unclamped step brings the position one cell closer to the edge it faces. */
  lemma StepTowardsEdge(m: Map, b: Bullet)
    requires m.Valid() && m.Contains(b.position) && b.active
    requires !AtEdge(m, b.position, b.direction)
    ensures var r := Advance(m, b);
      DistanceToEdge(m, r.position, r.direction) == DistanceToEdge(m, b.position, b.direction) - 1
  {
  }

  /**
   * A fired bullet's flight: with `D` cells to the edge it faces, it is
   * still active after `n` ticks exactly when `n <= D`, and by then it has
   * moved `min(n, D)` cells in its direction and never past the edge.
   */
  lemma {:induction false} Flight(m: Map, b: Bullet, n: nat)
    requires m.Valid() && m.Contains(b.position) && b.active
    ensures var r := AdvanceTimes(m, b, n);
      var dist := DistanceToEdge(m, b.position, b.direction);
      var moved := if n <= dist then n else dist;
      && (r.active <==> n <= dist)
      && r.direction == b.direction
      && r.position.x == b.position.x + moved * DeltaX(b.direction)
      && r.position.y == b.position.y + moved * DeltaY(b.direction)
      && DistanceToEdge(m, r.position, r.direction) == dist - moved
  {
    if n > 0 {
      Flight(m, b, n - 1);
      var prev := AdvanceTimes(m, b, n - 1);
      if prev.active && !AtEdge(m, prev.position, prev.direction) {
        StepTowardsEdge(m, prev);
      }
    }
  }

  /** The cursor after `shots` shots from a fresh pool, one step of `next_bullet_index` each. */
  function CursorAfter(shots: nat): nat {
    if shots == 0 then 0 else (CursorAfter(shots - 1) + 1) % PoolSize
  }

  /** The cursor after `shots` shots is `shots mod PoolSize`. */
  lemma {:induction false} CursorAfterShots(shots: nat)
    ensures CursorAfter(shots) == shots % PoolSize
  {
    if shots > 0 {
      CursorAfterShots(shots - 1);
    }
  }

  /**
   * The first 99 shots use slots 1 to 99 in turn, the hundredth wraps
   * round to slot 0, and every shot reuses the slot of the shot `PoolSize`
   * before it, whether or not that bullet is still live.
   */
  lemma SlotReuse(shots: nat)
    ensures shots < PoolSize ==> CursorAfter(shots) == shots
    ensures shots == PoolSize ==> CursorAfter(shots) == 0
    ensures CursorAfter(shots + PoolSize) == CursorAfter(shots)
  {
    CursorAfterShots(shots);
    CursorAfterShots(shots + PoolSize);
  }
}
