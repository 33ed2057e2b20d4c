# Grid arcade engine: a Dafny model

This project models the simulation core of a small grid arcade game written in
Rust and compiled to WebAssembly (`src/lib.rs`). The game has a
`width` x `height` grid of cells and a cell buffer the host draws. A player
marker moves one cell at a time and fires bullets. Bullets come from a fixed
pool of 100 slots, reused round-robin. Square asteroids are drawn around a
centre. The host sends a direction token to move, asks to shoot, and calls
`tick`. A tick advances every active bullet and then redraws the whole buffer.

Layout, one module per part of the source:

- `results.dfy` (`Results`): the `Result` type used for the source's error paths.
- `directions.dfy` (`Directions`): `Direction`, its tokens, and parsing a token.
- `grid.dfy` (`Grid`): the `Map` (grid) arithmetic. It covers the row-major
  index, the bounds-checked index, one clamped step, and the cells of an
  asteroid's square.
- `bullets.dfy` (`Bullets`): a pool slot, what one tick does to a bullet, and
  the cursor arithmetic.
- `universe.dfy` (`Game`): the `Universe` class. The cell buffer and the bullet
  pool are arrays. The player and the cursor are fields. The methods update
  them in place, as the source does.

Rust's `u32` is the subset type `Grid.u32`. Every `u32` subtraction or addition
that would panic in the source is excluded by a precondition: `width - 1`,
`x + 1`, `centre - radius`, `centre + radius + 1`, `width * height`.
`get_index_from_position` panics explicitly when a position is off the grid.
That panic is a `Result` with error `WidthExceeded` or `HeightExceeded`,
reported in the order the source checks them. The `unwrap` in `move_player`
panics on an unknown token before any field is written. `MovePlayer` models it
as an `Err` result that leaves the state unchanged.

Behaviour of the code worth noting:

- `shoot` does not redraw the buffer. The next `tick` first advances the new bullet
  and then redraws, so the bullet is first drawn one cell further on. If the shot lands
  on the edge it faces (the player stands on or next to that edge), that tick
  retires it and it is never drawn.
- The 100 pool slots start active at (0, 0) heading up, but the constructor does
  not draw them. `NewBulletRetires` shows that the first tick deactivates every
  slot that was never fired, so these bullets are never drawn.
- An asteroid is a centre and a radius. Nothing checks bullets against asteroids,
  and nothing fragments an asteroid.
- A universe needs a grid of at least 49 x 49 cells. The seed asteroid at
  (45, 45) with radius 3 must fit, or the constructor panics.

## Model

| member | source | states |
|---|---|---|
| `Directions.Parse` | src/lib.rs:189-201 | accepts exactly "up", "right", "down", "left"; every other string is `Err`; an accepted token is the token of the direction returned |
| `Directions.ParseToken` | src/lib.rs:189-201 | the token of every direction parses back to that direction |
| `Grid.RowMajor` | src/lib.rs:80-82 | for x < w and y < h, `y*w + x` is below `w*h`, and dividing it by `w` gives back row y and column x |
| `Grid.Index` | src/lib.rs:80-82 | the row-major index of an in-grid cell lies inside the buffer and decodes back to (column, row) |
| `Grid.IndexInjective` | src/lib.rs:80-82 | distinct in-grid positions have distinct indices, and the converse |
| `Grid.IndexFromPosition` | src/lib.rs:157-166 | fails exactly when x > width-1 or y > height-1, with the width error exactly when x is off the grid; otherwise returns the row-major index, below width*height |
| `Grid.PositionOfIndex` | src/lib.rs:80-82 | every buffer index is the index of exactly one in-grid cell, so `Index` maps the grid onto the buffer |
| `Grid.Step` | src/lib.rs:98-155 | the position is unchanged exactly at the edge for the direction (Up at y=0, Right at x=width-1, Down at y=height-1, Left at x=0); otherwise exactly one coordinate moves by one in that direction; in-grid positions stay in the grid |
| `Grid.InGridStepDefined` | src/lib.rs:98-155 | a step from any in-grid position of a valid grid has no u32 under- or overflow |
| `Grid.StepIdempotentAtEdge` | src/lib.rs:98-155 | at an edge, stepping again from the clamped position stays put (no overshoot, no wraparound) |
| `Grid.AsteroidIndexes` | src/lib.rs:88-96 | fails exactly when the (2r+1)x(2r+1) square leaves the grid; otherwise returns (2r+1)^2 strictly increasing indices, exactly the cells of the square |
| `Bullets.BulletIndex` | src/lib.rs:84-86 | the index of the cell under an in-grid bullet lies inside the buffer and decodes back to the bullet's position |
| `Bullets.NewBullet` | src/lib.rs:51-60 | a fresh slot is active, at (0,0), heading Up, with the direction obtained by parsing "up" |
| `Bullets.Advance` | src/lib.rs:350-362 | an inactive bullet is untouched; an active one is deactivated in place exactly at the edge it faces, and otherwise moves one cell in its direction; it never leaves the grid or changes direction |
| `Bullets.AdvanceTimes` | src/lib.rs:349-362 | a bullet stays in the grid however many ticks pass |
| `Bullets.DistanceToEdge` | src/lib.rs:98-155 | the distance to the faced edge is zero exactly at that edge |
| `Bullets.StepTowardsEdge` | src/lib.rs:356-361 | a tick that moves a bullet brings it one cell closer to the edge it faces |
| `Bullets.NewBulletRetires` | src/lib.rs:349-362 | a never-fired slot is deactivated where it stands by the first tick |
| `Bullets.Flight` | src/lib.rs:349-362 | after n ticks, a bullet D cells from its edge is active exactly when n <= D, has moved min(n, D) cells in its direction, and is never past the edge |
| `Bullets.CursorAfterShots` | src/lib.rs:256-264 | after k shots from a fresh pool, the cursor is k mod 100 |
| `Bullets.SlotReuse` | src/lib.rs:339-347 | shots 1 to 99 use slots 1 to 99, the 100th wraps to slot 0, and shot k+100 overwrites the slot of shot k |
| `Game.MarkActive` | src/lib.rs:322-327 | the listed cells become Active; every other cell keeps its value |
| `Game.Universe.constructor` | src/lib.rs:205-250 | the player is at (width/2, height/2) facing Up; 100 fresh bullets; cursor 0; the seed asteroid; a cell is Active exactly when it is the player's or in the asteroid's square |
| `Game.Universe.NewDefault` | src/lib.rs:285-290 | the default universe is the constructor's on a 64x64 grid: player at (32, 32) facing Up, 100 fresh bullets, cursor 0, the seed asteroid, and only the player's cell and the asteroid's square drawn |
| `Game.Universe.NextBulletIndex` | src/lib.rs:256-264 | cursor := (cursor + 1) mod 100, and that slot is returned; the cursor stays below the pool size |
| `Game.Universe.SetCells` | src/lib.rs:270-275 | each listed in-grid cell becomes Active; all other cells are unchanged; the universe stays valid |
| `Game.Universe.SetPlayerPosition` | src/lib.rs:277-279 | the player is placed on the given cell; nothing else changes |
| `Game.Universe.Render` | src/lib.rs:305-328 | afterwards a cell is Active exactly when it is the player's, under an active bullet, or in some asteroid's square; the buffer length is unchanged |
| `Game.Universe.MovePlayer` | src/lib.rs:330-337 | an unknown token fails and changes nothing; a valid one sets the facing and moves the player one clamped step that way |
| `Game.Universe.Shoot` | src/lib.rs:339-347 | the cursor advances; that slot, live or not, becomes an active bullet one clamped step ahead of the player in the player's direction; other slots, the player and the buffer are unchanged |
| `Game.Universe.Tick` | src/lib.rs:349-365 | every bullet becomes `Advance` of itself, all stay in the grid, and the buffer is then rebuilt as `Render` states |

## Left out

- wasm-bindgen glue, the `wee_alloc` allocator, the `log!` macro, `print!` and the
  panic hook (src/lib.rs:3-20, 206, 333). These are host bootstrap and I/O.
- `cells()` hands the host the buffer's raw address (src/lib.rs:301-303). It, `get_cells`,
  `width` and `height` are plain reads of the class's fields and have no members of their own.
- `get_player_index` (src/lib.rs:252-254) is `Index` at the player's position; `PlayerCell`
  and `MovePlayer` use it in that form.
- `Map::new` and `Position::new` are plain record constructors: the datatype constructors `Map` and `Position`.
- Grid.Index: requires an in-grid cell. The source's `get_index` is unchecked. For an
  off-grid cell it can alias another cell or index past the buffer. Every caller in
  the model passes an in-grid cell.
- Grid.IndexFromPosition: requires a valid grid. The cell count must fit in a `u32`
  and neither dimension may be zero. The requirement comes from `Universe::new`,
  which panics at src/lib.rs:216 when `width * height` overflows a `u32`. Every map
  that reaches this private function has passed that point. On a larger map the
  function alone would still index every position whose `y * width + x` fits in a `u32`.
- Grid.AsteroidIndexes: on failure, the model does not pin which of the two bounds
  errors is reported, only that one is.
- Game.Universe.SetCells: requires every listed cell to be in the grid. The source does
  not check, and the unchecked index may alias or panic on the buffer.
- Game.Universe.SetPlayerPosition: requires an in-grid position. The source stores any
  position without checking. From an off-grid position the next tick panics in `render`
  (src/lib.rs:311). A move or a shot panics (src/lib.rs:336, 346) unless its clamped step
  lands back on the grid: on a 64 x 64 grid, a move left from (64, 10) reaches (63, 10) and
  returns normally. A move also panics earlier, in the unchecked index at src/lib.rs:331, when
  `y * width + x` overflows a `u32`. Requiring an in-grid position keeps the player inside
  the invariant `Valid()` that every other method relies on.
- Game.Universe.constructor: the source's panics are preconditions. One is a seed
  asteroid that does not fit the grid; the other is a cell count that overflows `u32`.
- The asteroid list is a constant of the class, because no code path changes it after construction.
- `u32` wrap-around in release builds is not modelled. Every overflow is treated as the panic of a debug build.
- The code has no collision detection and no fragmentation: `tick` never tests bullets against asteroids.
- The tests in tests/web.rs are not modelled. Their 5 x 5 universes would panic in the constructor.
