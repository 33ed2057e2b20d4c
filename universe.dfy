/**
 * The universe: the grid, the cell buffer the host draws, the player, the
 * bullet pool with its round-robin cursor, and the asteroids. Commands
 * (move, shoot) change the entities at once; a tick advances the bullets and
 * then rebuilds the whole cell buffer from the entities.
 */
module Game {
  import opened Results
  import opened Directions
  import opened Grid
  import opened Bullets

  datatype Cell = Inactive | Active

  /** The one asteroid every universe starts with. */
  const SeedAsteroid: Asteroid := Asteroid(Position(45, 45), 3)

  /** Cell `i` is the index of one of the listed in-grid cells among the first `upto`. */
  predicate Listed(m: Map, locs: seq<(u32, u32)>, upto: nat, i: nat)
    requires m.Valid() && upto <= |locs|
    requires forall n :: 0 <= n < |locs| ==> locs[n].0 < m.width && locs[n].1 < m.height
  {
    exists n :: 0 <= n < upto && i == Index(m, locs[n].0, locs[n].1)
  }

  /** Marks the listed cells of `buffer` active and leaves the others as they were. */
  method MarkActive(buffer: array<Cell>, indexes: seq<nat>)
    requires forall t :: 0 <= t < |indexes| ==> indexes[t] < buffer.Length
    modifies buffer
    ensures forall j :: 0 <= j < buffer.Length ==> buffer[j] == (if j in indexes then Active else old(buffer[j]))
  {
    var t := 0;
    while t < |indexes|
      invariant 0 <= t <= |indexes|
      invariant forall j :: 0 <= j < buffer.Length ==>
        buffer[j] == (if j in indexes[..t] then Active else old(buffer[j]))
    {
      assert indexes[..t + 1] == indexes[..t] + [indexes[t]];
      buffer[indexes[t]] := Active;
      t := t + 1;
    }
    assert indexes[..t] == indexes;
  }

  class Universe {
    const grid: Map
    var cells: array<Cell>
    var playerPos: Position
    var playerDirection: Direction
    var bullets: array<Bullet>
    var curBulletIndex: nat
    /** Never reassigned after construction. */
    const asteroids: seq<Asteroid>

    /**
     * The buffer has one cell per grid cell, the pool has its fixed size
     * and the cursor points into it, the player and every bullet are in the
     * grid, and every asteroid's square can be computed and fits the grid.
     */
    ghost predicate Valid()
      reads this, bullets
    {
      grid.Valid()
      && cells.Length == grid.width * grid.height
      && bullets.Length == PoolSize
      && curBulletIndex < bullets.Length
      && grid.Contains(playerPos)
      && (forall k :: 0 <= k < bullets.Length ==> grid.Contains(bullets[k].position))
      && (forall a :: a in asteroids ==> NoWrap(a) && FitsIn(grid, a))
    }

    /** Cell `i` is the player's. */
    ghost predicate PlayerCell(i: nat)
      reads this, bullets
      requires Valid()
    {
      i == Index(grid, playerPos.x, playerPos.y)
    }

    /** Cell `i` is under an active bullet among the first `upto` slots. */
    ghost predicate BulletCell(i: nat, upto: nat)
      reads this, bullets
      requires Valid() && upto <= bullets.Length
    {
      exists k :: 0 <= k < upto && bullets[k].active && i == BulletIndex(grid, bullets[k])
    }

    /** Cell `i` lies in the square of one of the first `upto` asteroids. */
    ghost predicate AsteroidCell(i: nat, upto: nat)
      requires grid.Valid() && upto <= |asteroids|
    {
      exists n :: 0 <= n < upto && InSquare(grid, asteroids[n], i)
    }

    /** Cell `i` is drawn: it holds the player, an active bullet or part of an asteroid. */
    ghost predicate Occupied(i: nat)
      reads this, bullets
      requires Valid()
    {
      PlayerCell(i) || BulletCell(i, bullets.Length) || AsteroidCell(i, |asteroids|)
    }

    /**
     * A universe over a `width` x `height` grid (`Universe::new`): the
     * player in the middle facing up, a pool of fresh bullets with the
     * cursor at 0, and the seed asteroid. Only the player's cell and the
     * asteroid's square are drawn; the fresh bullets, although active, are not.
     */
    constructor (width: u32, height: u32)
      requires Map(width, height).Valid() && FitsIn(Map(width, height), SeedAsteroid)
      ensures Valid() && fresh(cells) && fresh(bullets)
      ensures grid == Map(width, height) && asteroids == [SeedAsteroid]
      ensures playerPos == Position(width / 2, height / 2) && playerDirection == Up
      ensures curBulletIndex == 0
      ensures forall k :: 0 <= k < bullets.Length ==> bullets[k] == NewBullet()
      ensures forall i :: 0 <= i < cells.Length ==>
        (cells[i] == Active <==> PlayerCell(i) || InSquare(grid, SeedAsteroid, i))
    {
      var m := Map(width, height);
      var player := Position(width / 2, height / 2);
      var playerIdx := player.y * width + player.x;
      var c := new Cell[width * height];
      var i := 0;
      while i < c.Length
        invariant 0 <= i <= c.Length
        invariant forall j :: 0 <= j < i ==> (c[j] == Active <==> j == playerIdx)
      {
        c[i] := if i == playerIdx then Active else Inactive;
        i := i + 1;
      }
      var b := new Bullet[PoolSize];
      var k := 0;
      while k < PoolSize
        modifies b
        invariant 0 <= k <= PoolSize
        invariant forall j :: 0 <= j < k ==> b[j] == NewBullet()
      {
        b[k] := NewBullet();
        k := k + 1;
      }
      var res := AsteroidIndexes(m, SeedAsteroid);
      forall t | 0 <= t < |res.value| ensures res.value[t] < c.Length {
        assert InSquare(m, SeedAsteroid, res.value[t]);
      }
      MarkActive(c, res.value);
      grid := m;
      asteroids := [SeedAsteroid];
      playerPos := player;
      playerDirection := Up;
      cells := c;
      bullets := b;
      curBulletIndex := 0;
    }

    /** The universe the host creates by default (`Universe::new_default`): a 64 x 64 grid. */
    static method NewDefault() returns (u: Universe)
      ensures fresh(u) && fresh(u.cells) && fresh(u.bullets) && u.Valid()
      ensures u.grid == Map(64, 64) && u.asteroids == [SeedAsteroid]
      ensures u.playerPos == Position(32, 32) && u.playerDirection == Up
      ensures u.curBulletIndex == 0
      ensures forall k :: 0 <= k < u.bullets.Length ==> u.bullets[k] == NewBullet()
      ensures forall i :: 0 <= i < u.cells.Length ==>
        (u.cells[i] == Active <==> u.PlayerCell(i) || InSquare(u.grid, SeedAsteroid, i))
    {
      u := new Universe(64, 64);
    }

    /**
     * Moves the cursor to the next pool slot, wrapping from the last slot
     * to the first, and returns it (`next_bullet_index`).
     */
    method NextBulletIndex() returns (next: nat)
      requires Valid()
      modifies this`curBulletIndex
      ensures Valid()
      ensures next == curBulletIndex == (old(curBulletIndex) + 1) % PoolSize
    {
      next := curBulletIndex + 1;
      var len := bullets.Length;
      if next > len - 1 {
        next := 0;
      }
      curBulletIndex := next;
    }

    /**
     * Marks every listed cell active and leaves the others as they were
     * (`set_cells`, a test hook).
     */
    method SetCells(cellLocs: seq<(u32, u32)>)
      requires Valid()
      requires forall n :: 0 <= n < |cellLocs| ==> cellLocs[n].0 < grid.width && cellLocs[n].1 < grid.height
      modifies cells
      ensures Valid()
      ensures forall i :: 0 <= i < cells.Length ==>
        cells[i] == (if Listed(grid, cellLocs, |cellLocs|, i) then Active else old(cells[i]))
    {
      var n := 0;
      while n < |cellLocs|
        invariant 0 <= n <= |cellLocs|
        invariant forall i :: 0 <= i < cells.Length ==>
          cells[i] == (if Listed(grid, cellLocs, n, i) then Active else old(cells[i]))
      {
        var i := Index(grid, cellLocs[n].0, cellLocs[n].1);
        cells[i] := Active;
        n := n + 1;
      }
    }

    /** Puts the player on a cell without any movement rule (`set_player_position`, a test hook). */
    method SetPlayerPosition(position: Position)
      requires Valid() && grid.Contains(position)
      modifies this`playerPos
      ensures Valid() && playerPos == position
    {
      playerPos := position;
    }

    /**
     * Rebuilds the whole buffer (`render`): afterwards a cell is active
     * exactly when it holds the player, an active bullet or part of an
     * asteroid's square.
     */
    method Render()
      requires Valid()
      modifies cells
      ensures Valid()
      ensures forall i :: 0 <= i < cells.Length ==> (cells[i] == Active <==> Occupied(i))
    {
      var idx := 0;
      while idx < cells.Length
        invariant 0 <= idx <= cells.Length
        invariant forall j :: 0 <= j < idx ==> cells[j] == Inactive
      {
        cells[idx] := Inactive;
        idx := idx + 1;
      }

      var playerIdx := IndexFromPosition(grid, playerPos);
      cells[playerIdx.value] := Active;

      var k := 0;
      while k < bullets.Length
        invariant 0 <= k <= bullets.Length
        invariant forall j :: 0 <= j < cells.Length ==> (cells[j] == Active <==> PlayerCell(j) || BulletCell(j, k))
      {
        if bullets[k].active {
          var bulletIdx := BulletIndex(grid, bullets[k]);
          cells[bulletIdx] := Active;
        }
        k := k + 1;
      }

      var n := 0;
      while n < |asteroids|
        invariant 0 <= n <= |asteroids|
        invariant forall j :: 0 <= j < cells.Length ==>
          (cells[j] == Active <==> PlayerCell(j) || BulletCell(j, bullets.Length) || AsteroidCell(j, n))
      {
        var res := AsteroidIndexes(grid, asteroids[n]);
        forall t | 0 <= t < |res.value| ensures res.value[t] < cells.Length {
          assert InSquare(grid, asteroids[n], res.value[t]);
        }
        MarkActive(cells, res.value);
        n := n + 1;
      }
    }

    /**
     * Parses the command and moves the player one clamped step that way
     * (`move_player`). An unknown command fails before anything changes;
     * otherwise the player faces the parsed direction and has moved.
     */
    method MovePlayer(command: string) returns (r: Result<(), ()>)
      requires Valid()
      modifies this`playerPos, this`playerDirection
      ensures Valid()
      ensures r.Ok? <==> Parse(command).Ok?
      ensures r.Err? ==> playerPos == old(playerPos) && playerDirection == old(playerDirection)
      ensures r.Ok? ==>
        playerDirection == Parse(command).value && playerPos == Step(grid, old(playerPos), playerDirection)
    {
      var oldIndex := Index(grid, playerPos.x, playerPos.y);
      var parsed := Parse(command);
      if parsed.Err? {
        return Err(());
      }
      playerDirection := parsed.value;
      playerPos := Step(grid, playerPos, playerDirection);
      var newIndex := IndexFromPosition(grid, playerPos);
      assert newIndex.Ok?;
      return Ok(());
    }

    /**
     * Fires a bullet (`shoot`): the cursor moves to the next slot, which is
     * overwritten, live or not, with an active bullet one clamped step ahead
     * of the player in the player's direction. Nothing else changes; in
     * particular the buffer is not redrawn.
     */
    method Shoot()
      requires Valid()
      modifies this`curBulletIndex, bullets
      ensures Valid()
      ensures curBulletIndex == (old(curBulletIndex) + 1) % PoolSize
      ensures bullets[curBulletIndex] == Bullet(true, Step(grid, playerPos, playerDirection), playerDirection)
      ensures forall k :: 0 <= k < bullets.Length && k != curBulletIndex ==> bullets[k] == old(bullets[k])
    {
      var i := NextBulletIndex();
      bullets[i] := bullets[i].(direction := playerDirection);
      bullets[i] := bullets[i].(position := Step(grid, playerPos, bullets[i].direction));
      bullets[i] := bullets[i].(active := true);
      var newIndex := IndexFromPosition(grid, bullets[i].position);
      assert newIndex.Ok?;
    }

    /**
     * One simulation step (`tick`): every bullet advances as `Advance`
     * says (inactive ones untouched, active ones one cell on or
     * deactivated at the edge), then the buffer is rebuilt.
     */
    method Tick()
      requires Valid()
      modifies cells, bullets
      ensures Valid()
      ensures forall k :: 0 <= k < bullets.Length ==> bullets[k] == Advance(grid, old(bullets[k]))
      ensures forall i :: 0 <= i < cells.Length ==> (cells[i] == Active <==> Occupied(i))
    {
      var k := 0;
      while k < bullets.Length
        invariant 0 <= k <= bullets.Length
        invariant Valid()
        invariant forall j :: 0 <= j < k ==> bullets[j] == Advance(grid, old(bullets[j]))
        invariant forall j :: k <= j < bullets.Length ==> bullets[j] == old(bullets[j])
      {
        var bullet := bullets[k];
        if bullet.active {
          var oldIndex := BulletIndex(grid, bullet);
          cells[oldIndex] := Inactive;
          InGridStepDefined(grid, bullet.position, bullet.direction);
          var next := Step(grid, bullet.position, bullet.direction);
          if next == bullet.position {
            bullets[k] := bullet.(active := false);
          } else {
            bullets[k] := bullet.(position := next);
          }
        }
        k := k + 1;
      }
      Render();
    }
  }
}
